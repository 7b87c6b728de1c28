/** The actions the pages dispatch to the shared product store. Only the
    dispatched action is modelled; how the store reduces it is not. */
module Store {
  import opened Types

  datatype Action =
    | SetProducts(products: seq<Product>)
    | DeleteProduct(id: int)
    | UpdateProduct(product: Product)
}
