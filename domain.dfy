/**
 * The records of the service. The transfer objects and the persisted entities carry the
 * same fields, so one datatype stands for both; a field the JSON body may leave out (or send
 * as null) is an Option.
 */
module Domain {
  import opened Wrappers

  /** An author: the surrogate id is None until the store assigns one. */
  datatype Author = Author(id: Option<int>, name: Option<string>, age: Option<int>)

  /** A book: keyed by its isbn; its author is a reference by id that may be absent. */
  datatype Book = Book(isbn: Option<string>, title: Option<string>, author: Option<int>)

  /** The HTTP statuses the controllers choose between. */
  datatype Status = Ok | Created | NotFound

  /** A response: a status and, except for NOT_FOUND, a body. */
  datatype Response<T> = Response(status: Status, body: Option<T>)
}
