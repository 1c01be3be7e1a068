/**
 * An end-to-end run over a fresh database through the controllers: create an author, upsert
 * one of their books, then upsert the same isbn again with a new title.
 */
module Lifecycle {
  import opened Wrappers
  import opened Domain
  import opened Tables
  import AuthorController
  import BookController
  import BookRepository

  /**
   * Alex (40) gets id 1; book "123" by author 1 is CREATED and counts 1 for the author;
   * re-sending "123" as "Rust" answers OK, stores the new title and leaves the count at 1.
   */
  method CreateAuthorThenUpsertBookTwice()
    returns (authorId: int, first: Status, second: Status, title: Option<string>, countAfterFirst: nat, countAfterSecond: nat)
    ensures authorId == 1
    ensures first == Created && second == Ok
    ensures title == Some("Rust")
    ensures countAfterFirst == 1 && countAfterSecond == 1
  {
    var db := new Database();
    var created := AuthorController.CreateAuthor(db, Author(None, Some("Alex"), Some(40)));
    authorId := created.body.value.id.value;

    var r1 := BookController.CreateUpdateBook(db, "123", Book(None, Some("Java"), Some(authorId)));
    BookRepository.CountAfterPut(map[], "123", Book(Some("123"), Some("Java"), Some(authorId)), authorId);
    countAfterFirst := BookRepository.GetNumberOfBooksByAuthorId(db.books, authorId);

    ghost var before := db.books;
    var r2 := BookController.CreateUpdateBook(db, "123", Book(None, Some("Rust"), Some(authorId)));
    BookRepository.OverwriteKeepsCount(before, "123", Book(Some("123"), Some("Rust"), Some(authorId)), authorId);
    countAfterSecond := BookRepository.GetNumberOfBooksByAuthorId(db.books, authorId);

    first, second := r1.status, r2.status;
    title := db.books["123"].title;
  }
}
