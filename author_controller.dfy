/**
 * The author endpoints: create (201), list, get (200/404), full update and partial update
 * (both 404 without writing when the id is unknown, 200 otherwise).
 */
module AuthorController {
  import opened Wrappers
  import opened Domain
  import opened Tables
  import AuthorService

  /** POST /authors: save the body and answer CREATED with the saved author. */
  method CreateAuthor(db: Database, author: Author) returns (resp: Response<Author>)
    requires db.Valid()
    modifies db
    ensures db.Valid()
    ensures resp.status == Created && resp.body.Some?
    ensures var saved := resp.body.value;
            && saved.id.Some? && saved.name == author.name && saved.age == author.age
            && (author.id.None? ==> saved.id == Some(old(db.nextId)) && saved.id.value !in old(db.authors))
            && (author.id.Some? ==> saved.id == author.id)
            && db.authors == old(db.authors)[saved.id.value := saved]
    ensures db.books == old(db.books)
    ensures db.nextId == if author.id.None? then old(db.nextId) + 1
                         else if author.id.value < old(db.nextId) then old(db.nextId)
                         else author.id.value + 1
  {
    var saved := AuthorService.Save(db, author);
    resp := Response(Created, Some(saved));
  }

  /** GET /authors: one entry per stored author. */
  method ListAuthors(db: Database) returns (r: seq<Author>)
    requires db.Valid()
    ensures |r| == |db.authors|
    ensures forall a :: a in r <==> a in db.authors.Values
  {
    r := AuthorService.FindAll(db);
    forall a | a in r ensures a in db.authors.Values {
      var i :| 0 <= i < |r| && r[i] == a;
      assert db.authors[r[i].id.value] == a;
    }
    forall a | a in db.authors.Values ensures a in r {
      var k := KeyOf(db.authors, a);
    }
  }

  /** GET /authors/{id}: OK with the author when stored, NOT_FOUND with no body otherwise. */
  function GetAuthor(db: Database, id: int): (resp: Response<Author>)
    reads db
    requires db.Valid()
    ensures resp.status == Ok <==> id in db.authors
    ensures resp.status == Ok ==> resp.body == Some(db.authors[id])
    ensures resp.status != Ok ==> resp == Response(NotFound, None)
  {
    match AuthorService.FindOne(db, id)
    case Some(a) => Response(Ok, Some(a))
    case None => Response(NotFound, None)
  }

  /**
   * PUT /authors/{id}: NOT_FOUND and no write when id is unknown; otherwise the body, with its
   * id forced to the path id, replaces the stored author field for field (null fields stored
   * as null), and the answer is OK with it.
   */
  method FullUpdateAuthor(db: Database, id: int, author: Author) returns (resp: Response<Author>)
    requires db.Valid()
    modifies db
    ensures db.Valid()
    ensures id !in old(db.authors) ==> resp == Response(NotFound, None) && db.authors == old(db.authors)
    ensures id in old(db.authors) ==>
              && resp == Response(Ok, Some(author.(id := Some(id))))
              && db.authors == old(db.authors)[id := author.(id := Some(id))]
    ensures db.books == old(db.books) && db.nextId == old(db.nextId)
  {
    if !AuthorService.IsExists(db, id) {
      return Response(NotFound, None);
    }
    var replacement := author.(id := Some(id));
    var saved := AuthorService.Save(db, replacement);
    resp := Response(Ok, Some(saved));
  }

  /**
   * PATCH /authors/{id}: NOT_FOUND without calling the service when id is unknown; otherwise
   * OK with the stored author merged with the body.
   */
  method PartialUpdate(db: Database, id: int, patch: Author) returns (resp: Response<Author>)
    requires db.Valid()
    modifies db
    ensures db.Valid()
    ensures id !in old(db.authors) ==> resp == Response(NotFound, None) && db.authors == old(db.authors)
    ensures id in old(db.authors) ==>
              resp == Response(Ok, Some(AuthorService.Merge(old(db.authors)[id], patch)))
    ensures db.authors == AuthorService.PatchedTable(old(db.authors), id, patch)
    ensures db.books == old(db.books) && db.nextId == old(db.nextId)
  {
    if !AuthorService.IsExists(db, id) {
      return Response(NotFound, None);
    }
    var updated := AuthorService.PartialUpdate(db, id, patch);
    resp := Response(Ok, updated);
  }
}
