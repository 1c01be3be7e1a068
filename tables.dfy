/**
 * The two keyed tables behind the repositories: authors keyed by a surrogate integer id,
 * books keyed by their isbn, and the counter the store draws fresh author ids from.
 */
module Tables {
  import opened Wrappers
  import opened Domain

  class Database {
    var authors: map<int, Author>
    var books: map<string, Book>
    var nextId: int

    /** Every row sits under its own key, and every author key was drawn below the counter. */
    ghost predicate Valid()
      reads this
    {
      && (forall k :: k in authors ==> authors[k].id == Some(k) && k < nextId)
      && (forall k :: k in books ==> books[k].isbn == Some(k))
    }

    /** An empty database; generated ids start at 1. */
    constructor ()
      ensures Valid()
      ensures authors == map[] && books == map[] && nextId == 1
    {
      authors := map[];
      books := map[];
      nextId := 1;
    }
  }

  /** A key under which v is stored. */
  ghost function KeyOf<K, V>(m: map<K, V>, v: V): (k: K)
    requires v in m.Values
    ensures k in m && m[k] == v
  {
    var k :| k in m && m[k] == v; k
  }

  /**
   * The rows of a table, one per key, in the store's iteration order (left unspecified):
   * what turning the repository's findAll iterable into a list yields. ks gives, for each
   * position, the key the row was read from.
   */
  method Rows<K(==), V>(m: map<K, V>) returns (vs: seq<V>, ghost ks: seq<K>)
    ensures |vs| == |ks| == |m|
    ensures forall i :: 0 <= i < |ks| ==> ks[i] in m && vs[i] == m[ks[i]]
    ensures forall i, j :: 0 <= i < j < |ks| ==> ks[i] != ks[j]
    ensures forall k :: k in m ==> k in ks
  {
    var todo := m.Keys;
    vs, ks := [], [];
    while todo != {}
      invariant todo <= m.Keys
      invariant |vs| == |ks| == |m.Keys - todo|
      invariant forall i :: 0 <= i < |ks| ==> ks[i] in m.Keys - todo && vs[i] == m[ks[i]]
      invariant forall i, j :: 0 <= i < j < |ks| ==> ks[i] != ks[j]
      invariant forall k :: k in m.Keys - todo ==> k in ks
      decreases |todo|
    {
      var k :| k in todo;
      assert m.Keys - (todo - {k}) == (m.Keys - todo) + {k};
      vs, ks := vs + [m[k]], ks + [k];
      todo := todo - {k};
    }
  }
}
