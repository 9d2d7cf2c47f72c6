/** Optional values and request failures shared by every layer of the blog. */
module Results {

  /** A value that may be absent, such as a query-string parameter. */
  datatype Option<+T> = None | Some(value: T)

  /** Why a request could not be answered with content.
      `NotFound` is the framework's 404 (a missing object, an unknown slug or a
      page number out of range); `MultipleObjectsReturned` is what a lookup by a
      field that is not unique raises when two rows match. */
  datatype Error = NotFound | MultipleObjectsReturned

  /** The outcome of a read request. */
  datatype Result<+T> = Ok(value: T) | Err(error: Error)
}
