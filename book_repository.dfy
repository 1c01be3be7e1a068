/**
 * The two count queries of the book repository over the book table. A book counts for an
 * author id when its author reference is that id; a book without an author counts for none.
 */
module BookRepository {
  import opened Wrappers
  import opened Domain

  /** The isbns of the books written by authorId. */
  function BooksOf(books: map<string, Book>, authorId: int): (s: set<string>)
  {
    set k | k in books && books[k].author == Some(authorId)
  }

  /** The query "SELECT COUNT(b) ... WHERE b.authorEntity.id = :authorId". */
  function GetNumberOfBooksByAuthorId(books: map<string, Book>, authorId: int): (n: nat)
    ensures n <= |books|
  {
    CardinalityOfSubset(BooksOf(books, authorId), books.Keys);
    |BooksOf(books, authorId)|
  }

  /** A key of a non-empty table, drawn the same way whenever the same table is given. */
  ghost function PickIsbn(books: map<string, Book>): (k: string)
    requires books != map[]
    ensures k in books
  {
    var k :| k in books; k
  }

  /** The derived query countByAuthorEntity_Id: a count taken one row at a time. */
  ghost function CountByAuthorEntityId(books: map<string, Book>, authorId: int): (n: nat)
    ensures n <= |books|
    ensures n == 0 <== (forall k :: k in books ==> books[k].author != Some(authorId))
    decreases |books|
  {
    if books == map[] then 0
    else
      var k := PickIsbn(books);
      var rest := books - {k};
      assert |rest.Keys| == |books.Keys| - 1 by { assert books.Keys == rest.Keys + {k}; }
      (if books[k].author == Some(authorId) then 1 else 0) + CountByAuthorEntityId(rest, authorId)
  }

  lemma CardinalityOfSubset(s: set<string>, t: set<string>)
    requires s <= t
    ensures |s| <= |t|
  {
    assert t == s + (t - s);
  }

  /** The two queries agree on every table and every author id. */
  lemma {:induction false} CountQueriesAgree(books: map<string, Book>, authorId: int)
    ensures CountByAuthorEntityId(books, authorId) == GetNumberOfBooksByAuthorId(books, authorId)
    decreases |books|
  {
    if books != map[] {
      var k := PickIsbn(books);
      var rest := books - {k};
      assert |rest.Keys| == |books.Keys| - 1 by { assert books.Keys == rest.Keys + {k}; }
      CountQueriesAgree(rest, authorId);
      if books[k].author == Some(authorId) {
        assert BooksOf(books, authorId) == BooksOf(rest, authorId) + {k};
      } else {
        assert BooksOf(books, authorId) == BooksOf(rest, authorId);
      }
    }
  }

  /** No book references the author: the count is zero. */
  lemma CountZeroWithoutBooks(books: map<string, Book>, authorId: int)
    requires forall k :: k in books ==> books[k].author != Some(authorId)
    ensures GetNumberOfBooksByAuthorId(books, authorId) == 0
  {
    assert BooksOf(books, authorId) == {};
  }

  /**
   * Writing book b at isbn moves the count of authorId by what leaves (the old row at isbn,
   * if it was by authorId) and what arrives (b, if it is by authorId). In particular a book
   * with a null author adds to no count.
   */
  lemma CountAfterPut(books: map<string, Book>, isbn: string, b: Book, authorId: int)
    ensures var before := if isbn in books && books[isbn].author == Some(authorId) then 1 else 0;
            var after := if b.author == Some(authorId) then 1 else 0;
            GetNumberOfBooksByAuthorId(books[isbn := b], authorId)
              == GetNumberOfBooksByAuthorId(books, authorId) - before + after
  {
    var others := BooksOf(books, authorId) - {isbn};
    var arriving: set<string> := if b.author == Some(authorId) then {isbn} else {};
    forall k ensures k in BooksOf(books[isbn := b], authorId) <==> k in others + arriving {
      if k == isbn {
      } else {
        assert k in BooksOf(books[isbn := b], authorId) <==> k in BooksOf(books, authorId);
      }
    }
    assert BooksOf(books[isbn := b], authorId) == others + arriving;
    assert isbn !in others;
    if isbn in books && books[isbn].author == Some(authorId) {
      assert BooksOf(books, authorId) == others + {isbn};
    } else {
      assert BooksOf(books, authorId) == others;
    }
  }

  /** Re-saving a book under its isbn with the same author leaves every count as it was. */
  lemma OverwriteKeepsCount(books: map<string, Book>, isbn: string, b: Book, authorId: int)
    requires isbn in books && books[isbn].author == b.author
    ensures GetNumberOfBooksByAuthorId(books[isbn := b], authorId) == GetNumberOfBooksByAuthorId(books, authorId)
  {
    CountAfterPut(books, isbn, b, authorId);
  }

  /** The repository's count tests: three books under distinct isbns by one author count 3, by both queries. */
  lemma ThreeBooksCountThree(authorId: int)
    ensures var author := Some(authorId);
            var books := map["1" := Book(Some("1"), Some("Java"), author),
                             "2" := Book(Some("2"), Some("Rust"), author),
                             "3" := Book(Some("3"), Some("Go"), author)];
            && GetNumberOfBooksByAuthorId(books, authorId) == 3
            && CountByAuthorEntityId(books, authorId) == 3
  {
    var author := Some(authorId);
    var books := map["1" := Book(Some("1"), Some("Java"), author),
                     "2" := Book(Some("2"), Some("Rust"), author),
                     "3" := Book(Some("3"), Some("Go"), author)];
    assert "1" != "2" && "1" != "3" && "2" != "3" by {
      assert "1"[0] != "2"[0] && "1"[0] != "3"[0] && "2"[0] != "3"[0];
    }
    assert books.Keys == {"1", "2", "3"};
    assert BooksOf(books, authorId) == books.Keys;
    CountQueriesAgree(books, authorId);
  }
}
