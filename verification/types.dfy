/** The records the shop front-end exchanges with its backend
    (src/types/product.ts). JavaScript numbers are modelled as integers. */
module Types {

  /** A value that may be absent, standing for the source's `T | null`. */
  datatype Option<+T> = None | Some(value: T)

  /** Physical dimensions of a product. */
  datatype Size = Size(width: int, height: int)

  /** A catalog entry; `comments` holds the ids of its comments. */
  datatype Product = Product(
    id: int,
    imageUrl: string,
    name: string,
    count: int,
    size: Size,
    weight: string,
    comments: seq<int>)

  /** A comment attached to the product `productId`. */
  datatype CommentModel = CommentModel(
    id: int,
    productId: int,
    description: string,
    date: string)

  /** A comment as it is posted for creation: every field but the id,
      which the backend assigns. */
  datatype CommentDraft = CommentDraft(
    productId: int,
    description: string,
    date: string)
}
