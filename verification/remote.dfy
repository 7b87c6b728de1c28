/** The backend as the pages see it: the calls they issue and the replies
    that come back. Nothing here performs I/O; a handler receives the
    reply to each call it makes as an argument. */
module Remote {
  import opened Types

  /** The outcome of one awaited service call: its resolved value, or a
      rejection (network failure or an HTTP error status). */
  datatype Reply<+T> = Ok(value: T) | Failed

  /** One call into the product service, with the payload it sends. */
  datatype Request =
    | FetchProducts
    | AddProduct(product: Product)
    | DeleteProduct(id: int)
    | UpdateProduct(id: int, data: Product)
    | FetchProductById(id: int)
    | FetchComments(productId: int)
    | AddComment(comment: CommentDraft)
    | DeleteComment(id: int)
}
