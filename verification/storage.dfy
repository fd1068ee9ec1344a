/** The storage capability (internal/storage/storage.go) and its error
    (internal/storage/errors.go). */
module Storage {
  import opened Models

  /** The one error the store reports: "resource requested was not found". */
  datatype Error = ResourceNotFound

  /** One call on the `Storage` interface, with its arguments. */
  datatype Call =
    | GetByID(id: Int64)
    | GetAll
    | GetByUser(userID: Int64)
    | Create(art: NewArticle)
    | Update(id: Int64, article: Article)
    | Delete(id: Int64)
  {
    /** The three calls that only read the table. */
    predicate IsQuery() {
      GetByID? || GetAll? || GetByUser?
    }
  }
}
