/**
 * The two age queries of the author repository, as filters over the author table. Both
 * compare in SQL, so an author whose age is null matches neither.
 */
module AuthorRepository {
  import opened Wrappers
  import opened Domain

  /** The derived query ageLessThan: the rows whose age is strictly below age. */
  function AgeLessThan(authors: map<int, Author>, age: int): (r: map<int, Author>)
    ensures forall k :: k in r <==> k in authors && authors[k].age.Some? && authors[k].age.value < age
    ensures forall k :: k in r ==> r[k] == authors[k]
  {
    map k | k in authors && authors[k].age.Some? && authors[k].age.value < age :: authors[k]
  }

  /** The query "a.age > ?1": the rows whose age is strictly above age. */
  function FindAuthorsWithAgeGreaterThan(authors: map<int, Author>, age: int): (r: map<int, Author>)
    ensures forall k :: k in r <==> k in authors && authors[k].age.Some? && authors[k].age.value > age
    ensures forall k :: k in r ==> r[k] == authors[k]
  {
    map k | k in authors && authors[k].age.Some? && authors[k].age.value > age :: authors[k]
  }

  /** Both results are sub-tables of the stored authors: same rows under the same keys, nothing new. */
  lemma QueriesReturnStoredRows(authors: map<int, Author>, age: int)
    ensures AgeLessThan(authors, age).Keys <= authors.Keys
    ensures FindAuthorsWithAgeGreaterThan(authors, age).Keys <= authors.Keys
    ensures |AgeLessThan(authors, age)| <= |authors|
    ensures |FindAuthorsWithAgeGreaterThan(authors, age)| <= |authors|
  {
    SubKeysSmaller(AgeLessThan(authors, age), authors);
    SubKeysSmaller(FindAuthorsWithAgeGreaterThan(authors, age), authors);
  }

  lemma SubKeysSmaller(r: map<int, Author>, m: map<int, Author>)
    requires r.Keys <= m.Keys
    ensures |r| <= |m|
  {
    assert |r.Keys| <= |m.Keys| by {
      var d := m.Keys - r.Keys;
      assert m.Keys == r.Keys + d;
    }
  }

  /** Both comparisons are strict: an author aged exactly age is in neither result. */
  lemma BoundaryExcluded(authors: map<int, Author>, age: int, k: int)
    requires k in authors && authors[k].age == Some(age)
    ensures k !in AgeLessThan(authors, age)
    ensures k !in FindAuthorsWithAgeGreaterThan(authors, age)
  {
  }

  /** For one bound the two results never share a row. */
  lemma QueriesDisjoint(authors: map<int, Author>, age: int)
    ensures AgeLessThan(authors, age).Keys !! FindAuthorsWithAgeGreaterThan(authors, age).Keys
  {
  }

  /**
   * Every stored author is in exactly one of: younger than age, older than age, aged exactly
   * age, or of null age.
   */
  lemma QueriesPartition(authors: map<int, Author>, age: int, k: int)
    requires k in authors
    ensures var younger, older := k in AgeLessThan(authors, age), k in FindAuthorsWithAgeGreaterThan(authors, age);
            var exact, unknown := authors[k].age == Some(age), authors[k].age == None;
            (younger || older || exact || unknown)
            && (younger ==> !older && !exact && !unknown)
            && (older ==> !exact && !unknown)
            && (exact ==> !unknown)
  {
  }

  /**
   * The scenario of the repository's age tests: Alex and Jess aged 40 and Dora aged 8 give one
   * author below 40 (Dora) and two above 10 (Alex and Jess).
   */
  lemma AgeQueryExamples()
    ensures var alex, jess, dora := Author(Some(1), Some("Alex"), Some(40)),
                                    Author(Some(2), Some("Jess"), Some(40)),
                                    Author(Some(3), Some("Dora"), Some(8));
            var authors := map[1 := alex, 2 := jess, 3 := dora];
            && AgeLessThan(authors, 40) == map[3 := dora]
            && FindAuthorsWithAgeGreaterThan(authors, 10) == map[1 := alex, 2 := jess]
  {
  }
}
