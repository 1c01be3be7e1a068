# Authors and books: entity lifecycle of a small CRUD service

A model in Dafny of the record logic of a Spring Boot REST service that keeps two tables:
authors, keyed by a surrogate numeric id the store assigns, and books, keyed by their isbn
and referring to at most one author by id. The model covers:

- the author service: `save` (fresh id when none is given, overwrite when one is), the reads
  `findAll`, `findOne`, `isExists`, the null-aware `partialUpdate` merge, and `delete`;
- the book service's upsert, `createBook`: the isbn from the path always replaces the
  payload's, then the book is inserted or overwrites the row under that isbn;
- the controllers: the 201/200/404 status each endpoint chooses and the write it makes or
  withholds, including the book endpoint's existence check made before the write;
- the repositories' queries: the count of books by author id (two formulations, proved equal)
  and the two strict age filters on authors.

Layout, one module per source file plus three shared ones:

- `wrappers.dfy` (`Wrappers`): `Option`, standing for Java's `null` and `Optional`.
- `domain.dfy` (`Domain`): the `Author` and `Book` records, `Status` (OK, CREATED,
  NOT_FOUND) and `Response` (status plus optional body).
- `tables.dfy` (`Tables`): class `Database` with fields `authors: map<int, Author>`,
  `books: map<string, Book>` and the fresh-id counter `nextId`. `Valid()` says every row sits
  under its own key and every author key is below the counter. `Rows` turns a table into a
  list, one entry per key.
- `author_repository.dfy`, `book_repository.dfy`: the queries, as functions over the maps.
- `author_service.dfy`, `book_service.dfy`: the service operations. Each method that writes
  a table is specified by a pure function of the old table (`PatchedTable`, `Upsert`). The
  lemmas are stated about those functions.
- `author_controller.dfy`, `book_controller.dfy`: the endpoints, as methods returning a
  `Response`.
- `lifecycle.dfy`: one end-to-end run on a fresh database. An author is created, one of
  their books is upserted, and the same isbn is upserted again with a new title.

Modelling choices:

- The transfer objects and the entities have the same fields, and the mappers copy them
  one to one, so one datatype stands for both.
- A book's embedded author entity is modelled as an optional author id.
- Fields that may be null are `Option`s: an author's id, name and age, and a book's isbn,
  title and author reference.
  A null field in a PATCH body therefore looks the same as a field the body left out, and
  both keep the stored value. This is what the source does with `Optional.ofNullable`.
- The SQL comparisons of the age queries treat a null age as unknown, so such an author
  matches neither query.
- The services and controllers hold no state of their own. They are modelled as methods
  over a `Database` passed to them, and every such method is atomic.

Where the source's interfaces and implementations disagree, the model follows the code
the controllers and tests call:

- `AuthorService` declares `createAuthor`, but the controller calls the implementation's
  `save`, and that is what is modelled.
- `BookService` declares `createBook` and `findAll`, while the controller calls
  `createUpdateBook`, `isExists` and `findOne`. `createUpdateBook` is taken to be
  `createBook`.
- `BookServiceImpl` has none of `isExists`, `findOne` or `findAll`. They are modelled as
  the plain repository reads, as on the author side.

The service has no book partial update or book delete, and its upsert does not report
whether the isbn existed: the controller reads that before the write
(BookController.java:35-36).

`ageLessThan(n)`, `findAuthorsWithAgeGreaterThan(n)` and the authors aged exactly `n` do not
cover the authors whose age is null, so `QueriesPartition` states a four-way partition.

## Model

| member | source | states |
|---|---|---|
| `Tables.Rows` | src/main/java/com/alex/database/services/impl/AuthorServiceImpl.java:33 | collecting a table gives exactly one entry per key (as many entries as rows, no key twice, every key present), each the row stored under its key |
| `AuthorRepository.AgeLessThan` | src/main/java/com/alex/database/repositories/AuthorRepository.java:9 | exactly the stored authors whose age is present and strictly below the bound, unchanged and under their own keys |
| `AuthorRepository.FindAuthorsWithAgeGreaterThan` | src/main/java/com/alex/database/repositories/AuthorRepository.java:11-12 | exactly the stored authors whose age is present and strictly above the bound, unchanged and under their own keys |
| `AuthorRepository.QueriesReturnStoredRows` | src/main/java/com/alex/database/repositories/AuthorRepository.java:9-12 | both results are subsets of the stored authors and no larger than the table |
| `AuthorRepository.BoundaryExcluded` | src/main/java/com/alex/database/repositories/AuthorRepository.java:9-12 | an author aged exactly the bound is in neither result (both comparisons are strict) |
| `AuthorRepository.QueriesDisjoint` | src/main/java/com/alex/database/repositories/AuthorRepository.java:9-12 | for one bound the two results share no author |
| `AuthorRepository.QueriesPartition` | src/main/java/com/alex/database/repositories/AuthorRepository.java:9-12 | every stored author is in exactly one of: below the bound, above it, aged exactly the bound, age null |
| `AuthorRepository.AgeQueryExamples` | src/test/java/com/alex/database/repositories/AuthorRepositoryIntegrationTests.java:72-101 | with Alex 40, Jess 40 and Dora 8, ageLessThan(40) is just Dora and greaterThan(10) is just Alex and Jess |
| `BookRepository.GetNumberOfBooksByAuthorId` | src/main/java/com/alex/database/repositories/BookRepository.java:13-14 | the number of books whose author reference is the given id; never more than the number of books |
| `BookRepository.CountByAuthorEntityId` | src/main/java/com/alex/database/repositories/BookRepository.java:11 | the same count taken one row at a time; never more than the number of books, and zero when no book references the id |
| `BookRepository.CountQueriesAgree` | src/main/java/com/alex/database/repositories/BookRepository.java:11-14 | the two count queries agree on every table and every non-null author id |
| `BookRepository.CountZeroWithoutBooks` | src/main/java/com/alex/database/repositories/BookRepository.java:13 | when no book references the author, the count is 0 |
| `BookRepository.CountAfterPut` | src/main/java/com/alex/database/repositories/BookRepository.java:13 | writing a book at an isbn changes an author's count by minus the old row's contribution plus the new one's; a book with a null author counts for no id |
| `BookRepository.OverwriteKeepsCount` | src/test/java/com/alex/database/repositories/BookRepositoryIntegrationTests.java:51-61 | overwriting a book under its isbn with the same author leaves every author's count unchanged |
| `BookRepository.ThreeBooksCountThree` | src/test/java/com/alex/database/repositories/BookRepositoryIntegrationTests.java:79-107 | three books with distinct isbns by one author count 3 under both queries |
| `AuthorService.FindOne` | src/main/java/com/alex/database/services/impl/AuthorServiceImpl.java:36-39 | present exactly when the id is stored, and then the stored author, whose id is that id |
| `AuthorService.IsExists` | src/main/java/com/alex/database/services/impl/AuthorServiceImpl.java:41-44 | true exactly when findOne finds the author |
| `AuthorService.Save` | src/main/java/com/alex/database/services/impl/AuthorServiceImpl.java:24-27 | the saved record is the argument with its id filled in. Without an id it gets the counter's value, previously unused; with an id it keeps it. Either way the row under that id is replaced and findOne/isExists then find it. Books are untouched |
| `AuthorService.FindAll` | src/main/java/com/alex/database/services/impl/AuthorServiceImpl.java:29-34 | one entry per stored author: as many as the table holds, every stored author present, each entry the row under its own id, no id twice |
| `AuthorService.Overlay` | src/main/java/com/alex/database/services/impl/AuthorServiceImpl.java:50-51 | a present patch value replaces the field; an absent (null) one keeps the current value |
| `AuthorService.Merge` | src/main/java/com/alex/database/services/impl/AuthorServiceImpl.java:49-52 | the merged author keeps the existing id (the patch's id is ignored) and overlays the patch's name and age |
| `AuthorService.PatchedTable` | src/main/java/com/alex/database/services/impl/AuthorServiceImpl.java:48-54 | the same keys as before; the author at the id is replaced by the merge when stored; every other author is unchanged |
| `AuthorService.PartialUpdate` | src/main/java/com/alex/database/services/impl/AuthorServiceImpl.java:46-54 | fails (None) exactly when the id is not stored, and then writes nothing. Otherwise it returns and stores the merge under that id. Books and the counter are untouched |
| `AuthorService.Delete` | src/main/java/com/alex/database/services/impl/AuthorServiceImpl.java:56-59 | afterwards the id is not found and every other author is as before; an unknown id is no error and changes nothing |
| `AuthorService.AgeOnlyPatch` | src/main/java/com/alex/database/services/impl/AuthorServiceImpl.java:50-51 | a patch with an age and a null name changes only the age |
| `AuthorService.EmptyPatchIsIdentity` | src/main/java/com/alex/database/services/impl/AuthorServiceImpl.java:49-52 | a patch with both fields null gives back the existing record |
| `AuthorService.MergeIgnoresPatchId` | src/main/java/com/alex/database/services/impl/AuthorServiceImpl.java:49-52 | the merge does not depend on the id the patch carries |
| `AuthorService.PatchIdempotent` | src/main/java/com/alex/database/services/impl/AuthorServiceImpl.java:50-52 | applying the same patch twice leaves the table as applying it once |
| `AuthorService.PatchKeepsKey` | src/main/java/com/alex/database/services/impl/AuthorServiceImpl.java:49-52 | after a partial update the author is still stored under its id, with that id |
| `BookService.Upsert` | src/main/java/com/alex/database/services/impl/BookServiceImpl.java:20-21 | the table gains the isbn, the row there is the payload with the path isbn, and every other isbn keeps its book |
| `BookService.CreateBook` | src/main/java/com/alex/database/services/impl/BookServiceImpl.java:18-22 | returns the payload with its isbn set to the argument; the book table becomes the upsert of the old one; authors are untouched |
| `BookService.IsExists` | src/main/java/com/alex/database/controllers/BookController.java:35 | true exactly when a book is stored under the isbn |
| `BookService.FindOne` | src/main/java/com/alex/database/controllers/BookController.java:54 | present exactly when the isbn exists, and then the stored book, whose isbn is that isbn |
| `BookService.FindAll` | src/main/java/com/alex/database/controllers/BookController.java:48 | one entry per stored book: as many as the table holds, every book present, each the row under its own isbn, no isbn twice |
| `BookService.UpsertStoresPayload` | src/test/java/com/alex/database/repositories/BookRepositoryIntegrationTests.java:27-35 | after the upsert, the row under the isbn carries that isbn and the payload's title and author |
| `BookService.UpsertSize` | src/test/java/com/alex/database/repositories/BookRepositoryIntegrationTests.java:38-61 | an existing isbn keeps the number of books; a fresh isbn adds exactly one |
| `BookService.UpsertIdempotent` | src/main/java/com/alex/database/services/impl/BookServiceImpl.java:20-21 | upserting twice with the same arguments gives the same table as once |
| `BookService.UpsertIgnoresPayloadIsbn` | src/main/java/com/alex/database/services/impl/BookServiceImpl.java:20 | whatever isbn the payload carries, the table is the same |
| `BookService.UpsertKeysRows` | src/main/java/com/alex/database/services/impl/BookServiceImpl.java:20-21 | the upsert keeps every book stored under its own isbn |
| `BookController.CreateUpdateBook` | src/main/java/com/alex/database/controllers/BookController.java:32-44 | CREATED when the isbn was absent before the write, OK when it was present. The table is the same upsert on both branches. The body is the saved book, with the path isbn and the payload title |
| `BookController.ListBooks` | src/main/java/com/alex/database/controllers/BookController.java:46-50 | as many entries as stored books, and exactly the stored books |
| `BookController.GetBook` | src/main/java/com/alex/database/controllers/BookController.java:52-59 | OK with the stored book exactly when the isbn exists, otherwise NOT_FOUND with no body; the store is only read |
| `BookController.SecondUpsertWins` | src/main/java/com/alex/database/controllers/BookController.java:36 | a second upsert of an isbn makes the table as if only the second had been sent |
| `BookController.UpsertTwice` | src/test/java/com/alex/database/controllers/BookControllerIntegrationTests.java:37-82 | combines the CREATED test of a new isbn (lines 37-48) with the OK test of a re-PUT of a stored isbn (lines 66-82): two upserts of one isbn in a row: CREATED first if it was new, OK second, and the second title is stored |
| `AuthorController.CreateAuthor` | src/main/java/com/alex/database/controllers/AuthorController.java:35-40 | always CREATED with the saved author, which keeps the body's name and age. Without an id in the body it gets a fresh, previously unused id. The row under that id is the saved author |
| `AuthorController.ListAuthors` | src/main/java/com/alex/database/controllers/AuthorController.java:42-47 | as many entries as stored authors, and exactly the stored authors |
| `AuthorController.GetAuthor` | src/main/java/com/alex/database/controllers/AuthorController.java:49-56 | OK with the stored author exactly when the id is stored, otherwise NOT_FOUND with no body; the store is only read |
| `AuthorController.FullUpdateAuthor` | src/main/java/com/alex/database/controllers/AuthorController.java:58-69 | an unknown id gives NOT_FOUND and no write. A known id gives OK, and the body with its id forced to the path id replaces the stored author as it is, nulls included |
| `AuthorController.PartialUpdate` | src/main/java/com/alex/database/controllers/AuthorController.java:71-84 | an unknown id gives NOT_FOUND with the table unchanged. A known id gives OK with the stored author merged with the body, and the table becomes the patched table |
| `Lifecycle.CreateAuthorThenUpsertBookTwice` | src/test/java/com/alex/database/controllers/BookControllerIntegrationTests.java:37-82 | a composed scenario, not one of the tests: the CREATED step follows lines 37-48, the OK on re-sending a stored isbn follows lines 66-82 (which re-send with a different author and check only the status), and the count part has no test behind it. On a fresh store: Alex gets id 1; book "123" by author 1 is CREATED and counts 1; re-sending it as "Rust" is OK, stores "Rust" and the count stays 1 |

## Left out

- HTTP routing, `ResponseEntity` and JSON (de)serialisation, including the `author_name`
  property rename: statuses are the `Status` enum and bodies an `Option`.
- The ModelMapper-based mappers are reflective copying by a foreign library: entity and
  transfer object are one record. The mapper's hard-coded `setNumberOfBooks(100)` targets a
  field `AuthorDto` does not have, and is not modelled. The book count exists only
  as the repository query.
- Spring dependency injection and `@Transactional`: every operation is atomic.
- JPA internals. The identity-generation strategy is replaced by a counter drawn from and
  bumped. A `save` whose author carries an id stores under that id, even when the id is
  unknown (the store's own insert-with-generated-id behaviour is not modelled). The cascade
  of a book's embedded author entity is not modelled; a book holds only its author's id.
- The check-then-act race between `isExists` and the write under concurrent requests. The
  model is single-threaded.
- The book PATCH and DELETE endpoints the tests exercise: `BookController` and
  `BookServiceImpl` have no such operations. There is likewise no author DELETE endpoint in
  `AuthorController`, so the 204 status of a delete is not modelled. Only the service's `delete` is.
- Java's `Long`/`Integer` widths: ids, ages and counts are unbounded integers; overflow of
  the id counter is not considered. A null bound passed to an age query is not modelled
  (the bound is an `int`).
- `BookRepository.CountByAuthorEntityId` is a ghost function. It takes rows one by one in an
  arbitrary but fixed order (a such-that choice), so it serves for proof and is not
  executable.
- `BookRepository.CountQueriesAgree`: null author ids are not modelled (the id is an `int`).
  For a null argument the two queries may disagree: the derived query can turn a null
  equality into `IS NULL` and count the books without an author, while the `@Query`'s
  `= :authorId` never holds for null and gives 0.
- `BookController.ListBooks`, `AuthorController.ListAuthors`, `AuthorService.FindAll`,
  `BookService.FindAll`: the order of the entries is left unspecified, as the store's
  iteration order is.
- The Mockito unit test and `TestDataUtil` builders are test scaffolding. They mock the
  service and state nothing about its behaviour.
