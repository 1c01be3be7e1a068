/**
 * The author service: save, the reads, the null-aware partial update and delete, all over
 * the author table of a Database.
 */
module AuthorService {
  import opened Wrappers
  import opened Domain
  import opened Tables

  /** The author stored under id, if any (the repository's findById). */
  function FindOne(db: Database, id: int): (r: Option<Author>)
    reads db
    requires db.Valid()
    ensures r.Some? <==> id in db.authors
    ensures r.Some? ==> r.value == db.authors[id] && r.value.id == Some(id)
  {
    if id in db.authors then Some(db.authors[id]) else None
  }

  /** Whether an author is stored under id (the repository's existsById). */
  function IsExists(db: Database, id: int): (b: bool)
    reads db
    requires db.Valid()
    ensures b <==> FindOne(db, id).Some?
  {
    id in db.authors
  }

  /**
   * The repository's save: an author without an id gets a fresh one from the counter; an
   * author with an id is written under that id, replacing whatever was there. The saved
   * record is the given one with its id filled in; the book table is not touched.
   */
  method Save(db: Database, author: Author) returns (saved: Author)
    requires db.Valid()
    modifies db
    ensures db.Valid()
    ensures saved.id.Some? && saved == author.(id := saved.id)
    ensures author.id.Some? ==> saved.id == author.id
    ensures author.id.None? ==> saved.id == Some(old(db.nextId)) && saved.id.value !in old(db.authors)
    ensures db.authors == old(db.authors)[saved.id.value := saved]
    ensures FindOne(db, saved.id.value) == Some(saved) && IsExists(db, saved.id.value)
    ensures db.books == old(db.books)
    ensures db.nextId == if author.id.None? then old(db.nextId) + 1
                         else if author.id.value < old(db.nextId) then old(db.nextId)
                         else author.id.value + 1
  {
    var key;
    if author.id.None? {
      key := db.nextId;
      db.nextId := db.nextId + 1;
    } else {
      key := author.id.value;
      if key >= db.nextId {
        db.nextId := key + 1;
      }
    }
    saved := author.(id := Some(key));
    db.authors := db.authors[key := saved];
  }

  /** The stored authors, one per id (findAll collected into a list). */
  method FindAll(db: Database) returns (r: seq<Author>)
    requires db.Valid()
    ensures |r| == |db.authors|
    ensures forall k :: k in db.authors ==> db.authors[k] in r
    ensures forall i :: 0 <= i < |r| ==> r[i].id.Some? && r[i].id.value in db.authors && db.authors[r[i].id.value] == r[i]
    ensures forall i, j :: 0 <= i < j < |r| ==> r[i].id != r[j].id
  {
    ghost var ks;
    r, ks := Rows(db.authors);
    forall k | k in db.authors ensures db.authors[k] in r {
      var i :| 0 <= i < |ks| && ks[i] == k;
      assert r[i] == db.authors[k];
    }
    forall i | 0 <= i < |r| ensures r[i].id == Some(ks[i]) {
      var k: int := ks[i];
      assert k in db.authors;
      assert db.authors[k].id == Some(k);
    }
  }

  /** One field of the patch applied the null-aware way: a present value wins, an absent one keeps the current value. */
  function Overlay<T>(current: Option<T>, patch: Option<T>): (r: Option<T>)
    ensures patch.Some? ==> r == patch
    ensures patch.None? ==> r == current
  {
    if patch.Some? then patch else current
  }

  /**
   * The record partialUpdate saves: the existing author with each non-null field of the patch
   * written over it. The id is the existing one; the patch's id is never consulted.
   */
  function Merge(existing: Author, patch: Author): (r: Author)
    ensures r.id == existing.id
    ensures r.name == Overlay(existing.name, patch.name) && r.age == Overlay(existing.age, patch.age)
  {
    existing.(name := Overlay(existing.name, patch.name), age := Overlay(existing.age, patch.age))
  }

  /** The author table after a partial update of id: a merge at id when it is stored, otherwise unchanged. */
  function PatchedTable(authors: map<int, Author>, id: int, patch: Author): (r: map<int, Author>)
    ensures r.Keys == authors.Keys
    ensures forall k :: k in authors && k != id ==> r[k] == authors[k]
    ensures id in authors ==> r[id] == Merge(authors[id], patch)
  {
    if id in authors then authors[id := Merge(authors[id], patch)] else authors
  }

  /**
   * partialUpdate: when id is stored, merge the patch into that author, save it and return
   * it; otherwise fail (the source throws "Author does not exist") and write nothing.
   */
  method PartialUpdate(db: Database, id: int, patch: Author) returns (r: Option<Author>)
    requires db.Valid()
    modifies db
    ensures db.Valid()
    ensures r.Some? <==> id in old(db.authors)
    ensures r.Some? ==> r.value == Merge(old(db.authors)[id], patch) && r.value.id == Some(id)
    ensures db.authors == PatchedTable(old(db.authors), id, patch)
    ensures db.books == old(db.books) && db.nextId == old(db.nextId)
  {
    match FindOne(db, id)
    case None =>
      r := None;
    case Some(existing) =>
      var merged := Merge(existing, patch);
      var saved := Save(db, merged);
      r := Some(saved);
  }

  /** delete: remove the author stored under id; an unknown id is no error and changes nothing. */
  method Delete(db: Database, id: int)
    requires db.Valid()
    modifies db
    ensures db.Valid()
    ensures db.authors == old(db.authors) - {id}
    ensures FindOne(db, id) == None && !IsExists(db, id)
    ensures forall k :: k in old(db.authors) && k != id ==> FindOne(db, k) == Some(old(db.authors)[k])
    ensures id !in old(db.authors) ==> db.authors == old(db.authors)
    ensures db.books == old(db.books) && db.nextId == old(db.nextId)
  {
    db.authors := db.authors - {id};
  }

  /** A patch with a non-null age and a null name changes the age and keeps the name. */
  lemma AgeOnlyPatch(existing: Author, patch: Author)
    requires patch.name.None? && patch.age.Some?
    ensures Merge(existing, patch) == existing.(age := patch.age)
  {
  }

  /** A patch with both fields null gives back the existing record. */
  lemma EmptyPatchIsIdentity(existing: Author, patch: Author)
    requires patch.name.None? && patch.age.None?
    ensures Merge(existing, patch) == existing
  {
  }

  /** The merge depends on the patch only through its name and age. */
  lemma MergeIgnoresPatchId(existing: Author, patch: Author, id: Option<int>)
    ensures Merge(existing, patch.(id := id)) == Merge(existing, patch)
  {
  }

  /** Applying the same patch a second time changes nothing more. */
  lemma PatchIdempotent(authors: map<int, Author>, id: int, patch: Author)
    ensures PatchedTable(PatchedTable(authors, id, patch), id, patch) == PatchedTable(authors, id, patch)
  {
  }

  /** A stored author stays stored under its key through a partial update, with the key unchanged. */
  lemma PatchKeepsKey(authors: map<int, Author>, id: int, patch: Author)
    requires id in authors && authors[id].id == Some(id)
    ensures id in PatchedTable(authors, id, patch) && PatchedTable(authors, id, patch)[id].id == Some(id)
  {
  }
}
