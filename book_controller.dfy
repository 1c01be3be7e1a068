/**
 * The book endpoints: the isbn-keyed upsert answering CREATED or OK, list, and get (200/404).
 */
module BookController {
  import opened Wrappers
  import opened Domain
  import opened Tables
  import BookService

  /**
   * PUT /books/{isbn}: read whether isbn is stored, then upsert; the status is CREATED when it
   * was not stored before the write and OK when it was. The table afterwards is the same on
   * both branches, and the body is the saved book.
   */
  method CreateUpdateBook(db: Database, isbn: string, book: Book) returns (resp: Response<Book>)
    requires db.Valid()
    modifies db
    ensures db.Valid()
    ensures resp.status == (if isbn in old(db.books) then Ok else Created)
    ensures resp.body == Some(book.(isbn := Some(isbn)))
    ensures resp.body.value.isbn == Some(isbn) && resp.body.value.title == book.title
    ensures db.books == BookService.Upsert(old(db.books), isbn, book)
    ensures db.authors == old(db.authors) && db.nextId == old(db.nextId)
  {
    var bookExists := BookService.IsExists(db, isbn);
    var saved := BookService.CreateBook(db, isbn, book);
    if bookExists {
      resp := Response(Ok, Some(saved));
    } else {
      resp := Response(Created, Some(saved));
    }
  }

  /** GET /books: one entry per stored book. */
  method ListBooks(db: Database) returns (r: seq<Book>)
    requires db.Valid()
    ensures |r| == |db.books|
    ensures forall b :: b in r <==> b in db.books.Values
  {
    r := BookService.FindAll(db);
    forall b | b in r ensures b in db.books.Values {
      var i :| 0 <= i < |r| && r[i] == b;
      assert db.books[r[i].isbn.value] == b;
    }
  }

  /** GET /books/{isbn}: OK with the stored book, or NOT_FOUND with no body. */
  function GetBook(db: Database, isbn: string): (resp: Response<Book>)
    reads db
    requires db.Valid()
    ensures resp.status == Ok <==> isbn in db.books
    ensures resp.status == Ok ==> resp.body == Some(db.books[isbn]) && resp.body.value.isbn == Some(isbn)
    ensures resp.status != Ok ==> resp == Response(NotFound, None)
  {
    match BookService.FindOne(db, isbn)
    case Some(b) => Response(Ok, Some(b))
    case None => Response(NotFound, None)
  }

  /** A second upsert of an isbn replaces the first one entirely. */
  lemma SecondUpsertWins(books: map<string, Book>, isbn: string, first: Book, second: Book)
    ensures BookService.Upsert(BookService.Upsert(books, isbn, first), isbn, second)
         == BookService.Upsert(books, isbn, second)
  {
  }

  /**
   * Two upserts of the same isbn in a row: the first answers CREATED when the isbn was new,
   * the second always answers OK, and the table ends as if only the second had been sent.
   */
  method UpsertTwice(db: Database, isbn: string, first: Book, second: Book)
    returns (r1: Response<Book>, r2: Response<Book>)
    requires db.Valid()
    modifies db
    ensures db.Valid()
    ensures isbn !in old(db.books) ==> r1.status == Created
    ensures r2.status == Ok
    ensures db.books == BookService.Upsert(old(db.books), isbn, second)
    ensures db.books[isbn].title == second.title
  {
    r1 := CreateUpdateBook(db, isbn, first);
    r2 := CreateUpdateBook(db, isbn, second);
    SecondUpsertWins(old(db.books), isbn, first, second);
  }
}
