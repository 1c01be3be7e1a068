/**
 * The book service: the isbn-keyed upsert (createBook, which the controller calls
 * createUpdateBook) and the reads the controller uses.
 */
module BookService {
  import opened Wrappers
  import opened Domain
  import opened Tables

  /** The book table after book is saved under isbn: the isbn from the call wins over the payload's. */
  function Upsert(books: map<string, Book>, isbn: string, book: Book): (r: map<string, Book>)
    ensures r.Keys == books.Keys + {isbn}
    ensures r[isbn] == book.(isbn := Some(isbn))
    ensures forall k :: k in books && k != isbn ==> r[k] == books[k]
  {
    books[isbn := book.(isbn := Some(isbn))]
  }

  /**
   * createBook: set the payload's isbn to the path isbn, then save it, inserting a new row or
   * replacing the one under that isbn. The author table is not touched.
   */
  method CreateBook(db: Database, isbn: string, book: Book) returns (saved: Book)
    requires db.Valid()
    modifies db
    ensures db.Valid()
    ensures saved == book.(isbn := Some(isbn))
    ensures db.books == Upsert(old(db.books), isbn, book)
    ensures db.authors == old(db.authors) && db.nextId == old(db.nextId)
  {
    saved := book.(isbn := Some(isbn));
    db.books := db.books[isbn := saved];
  }

  /** Whether a book is stored under isbn (existsById). */
  function IsExists(db: Database, isbn: string): (b: bool)
    reads db
    ensures b <==> isbn in db.books
  {
    isbn in db.books
  }

  /** The book stored under isbn, if any (findById). */
  function FindOne(db: Database, isbn: string): (r: Option<Book>)
    reads db
    requires db.Valid()
    ensures r.Some? <==> IsExists(db, isbn)
    ensures r.Some? ==> r.value == db.books[isbn] && r.value.isbn == Some(isbn)
  {
    if isbn in db.books then Some(db.books[isbn]) else None
  }

  /** The stored books, one per isbn (findAll collected into a list). */
  method FindAll(db: Database) returns (r: seq<Book>)
    requires db.Valid()
    ensures |r| == |db.books|
    ensures forall k :: k in db.books ==> db.books[k] in r
    ensures forall i :: 0 <= i < |r| ==> r[i].isbn.Some? && r[i].isbn.value in db.books && db.books[r[i].isbn.value] == r[i]
    ensures forall i, j :: 0 <= i < j < |r| ==> r[i].isbn != r[j].isbn
  {
    ghost var ks;
    r, ks := Rows(db.books);
    forall k | k in db.books ensures db.books[k] in r {
      var i :| 0 <= i < |ks| && ks[i] == k;
      assert r[i] == db.books[k];
    }
    forall i | 0 <= i < |r| ensures r[i].isbn == Some(ks[i]) {
      var k: string := ks[i];
      assert k in db.books;
      assert db.books[k].isbn == Some(k);
    }
  }

  /** The stored book under isbn holds the payload's title and author, and the path isbn. */
  lemma UpsertStoresPayload(books: map<string, Book>, isbn: string, book: Book)
    ensures var r := Upsert(books, isbn, book);
            r[isbn].isbn == Some(isbn) && r[isbn].title == book.title && r[isbn].author == book.author
  {
  }

  /** Upserting an isbn already stored replaces its row and keeps the number of books; a fresh isbn adds exactly one. */
  lemma UpsertSize(books: map<string, Book>, isbn: string, book: Book)
    ensures isbn in books ==> |Upsert(books, isbn, book)| == |books|
    ensures isbn !in books ==> |Upsert(books, isbn, book)| == |books| + 1
  {
  }

  /** Upserting twice with the same arguments gives the table one upsert gives. */
  lemma UpsertIdempotent(books: map<string, Book>, isbn: string, book: Book)
    ensures Upsert(Upsert(books, isbn, book), isbn, book) == Upsert(books, isbn, book)
  {
  }

  /** The isbn carried by the payload has no effect on the table. */
  lemma UpsertIgnoresPayloadIsbn(books: map<string, Book>, isbn: string, book: Book, other: Option<string>)
    ensures Upsert(books, isbn, book.(isbn := other)) == Upsert(books, isbn, book)
  {
  }

  /** An upsert keeps every row sitting under its own isbn. */
  lemma UpsertKeysRows(books: map<string, Book>, isbn: string, book: Book)
    requires forall k :: k in books ==> books[k].isbn == Some(k)
    ensures var r := Upsert(books, isbn, book); forall k :: k in r ==> r[k].isbn == Some(k)
  {
  }
}
