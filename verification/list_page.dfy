/** The state transitions of the product list page
    (src/pages/ProductListPage.tsx): adding a product, deleting the selected
    one, loading the list and the sorted view of it. The product list itself
    lives in the shared store; the page reads it and dispatches actions. */
module ListPage {
  import opened Types
  import opened Form
  import opened Remote
  import Store
  import Sorting

  /** The two orders the sort selector offers. */
  datatype SortType = ByName | ByCount

  /** The page's local state (its `useState` hooks). */
  datatype ListState = ListState(
    form: ProductForm,
    addOpen: bool,
    deleteOpen: bool,
    selected: Option<int>,
    sortType: SortType)

  const Initial := ListState(Blank, false, false, None, ByName)

  /** What one handler does: the local state it leaves, the service calls it
      issues in order, and the store actions it dispatches. */
  datatype Step = Step(state: ListState, requests: seq<Request>, actions: seq<Store.Action>)

  /** The largest id in a non-empty list (`Math.max` over the ids). */
  function MaxId(products: seq<Product>): (m: int)
    requires |products| > 0
    ensures exists i :: 0 <= i < |products| && products[i].id == m
    ensures forall i :: 0 <= i < |products| ==> products[i].id <= m
  {
    if |products| == 1 then products[0].id
    else
      var rest := MaxId(products[1..]);
      if products[0].id >= rest then products[0].id else rest
  }

  /** The id the page gives a new product: one above the largest id in the
      list, or 1 for an empty list. It collides with no existing id. */
  function NextId(products: seq<Product>): (id: int)
    ensures products == [] ==> id == 1
    ensures products != [] ==> exists i :: 0 <= i < |products| && products[i].id == id - 1
    ensures forall i :: 0 <= i < |products| ==> products[i].id < id
  {
    (if |products| > 0 then MaxId(products) else 0) + 1
  }

  /** The record the add flow posts: the form's fields, width and height
      nested into `size`, and no comments. */
  function NewProduct(form: ProductForm, id: int): (p: Product)
    ensures p.id == id && p.comments == []
    ensures p.name == form.name && p.count == form.count && p.weight == form.weight
    ensures p.imageUrl == form.imageUrl
    ensures p.size == Size(form.width, form.height)
  {
    Product(id, form.imageUrl, form.name, form.count, Size(form.width, form.height),
            form.weight, [])
  }

  /** `handleSubmit`, given the store's products and the replies to the
      create call and to the re-fetch that follows it. A form missing a
      required field is rejected before anything is built or sent. A valid
      form posts the new product; only if that succeeds is the list fetched
      again, and only if both succeed is the store replaced by the fetched
      list, the dialog closed and the form cleared. On any failure the page
      state is left as it was. */
  function HandleSubmit(s: ListState, products: seq<Product>,
                        created: Reply<Product>, refetched: Reply<seq<Product>>): (r: Step)
    ensures MissingRequired(s.form) ==> r == Step(s, [], [])
    ensures !MissingRequired(s.form) ==>
              && |r.requests| == (if created.Ok? then 2 else 1)
              && r.requests[0] == AddProduct(NewProduct(s.form, NextId(products)))
              && (created.Ok? ==> r.requests[1] == FetchProducts)
    ensures r.actions != [] <==> !MissingRequired(s.form) && created.Ok? && refetched.Ok?
    ensures r.actions != [] ==>
              && r.actions == [Store.SetProducts(refetched.value)]
              && r.state == s.(addOpen := false, form := Blank)
    ensures r.actions == [] ==> r.state == s
  {
    if MissingRequired(s.form) then Step(s, [], [])
    else
      var newProduct := NewProduct(s.form, NextId(products));
      match created
      case Failed => Step(s, [AddProduct(newProduct)], [])
      case Ok(_) =>
        match refetched
        case Failed => Step(s, [AddProduct(newProduct), FetchProducts], [])
        case Ok(updated) =>
          Step(s.(addOpen := false, form := Blank),
               [AddProduct(newProduct), FetchProducts],
               [Store.SetProducts(updated)])
  }

  /** `openDeleteModal`: remembers which product the dialog is about. */
  function OpenDeleteModal(s: ListState, id: int): (r: ListState)
    ensures r.selected == Some(id) && r.deleteOpen
    ensures r.form == s.form && r.addOpen == s.addOpen && r.sortType == s.sortType
  {
    s.(selected := Some(id), deleteOpen := true)
  }

  /** `confirmDelete`, given the reply to the delete call. With no product
      selected nothing happens. Otherwise the selected id is deleted on the
      server; on success the store is told to drop it and the dialog closes
      with the selection cleared; on failure the page is left as it was. */
  function ConfirmDelete(s: ListState, deleted: Reply<()>): (r: Step)
    ensures s.selected.None? ==> r == Step(s, [], [])
    ensures s.selected.Some? ==> r.requests == [DeleteProduct(s.selected.value)]
    ensures s.selected.Some? && deleted.Ok? ==>
              && r.actions == [Store.DeleteProduct(s.selected.value)]
              && r.state == s.(deleteOpen := false, selected := None)
    ensures deleted.Failed? ==> r.state == s && r.actions == []
  {
    match s.selected
    case None => Step(s, [], [])
    case Some(id) =>
      match deleted
      case Failed => Step(s, [DeleteProduct(id)], [])
      case Ok(_) =>
        Step(s.(deleteOpen := false, selected := None), [DeleteProduct(id)],
             [Store.DeleteProduct(id)])
  }

  /** Confirming the dialog deletes the product it was opened for. */
  lemma DeleteTargetsOpenedProduct(s: ListState, id: int, deleted: Reply<()>)
    ensures ConfirmDelete(OpenDeleteModal(s, id), deleted).requests == [DeleteProduct(id)]
    ensures deleted.Ok? ==>
              ConfirmDelete(OpenDeleteModal(s, id), deleted).actions == [Store.DeleteProduct(id)]
  {
  }

  /** The page's initial load: fetch the list and, if that succeeds, put it
      in the store; a failure is only logged. */
  function LoadProducts(s: ListState, fetched: Reply<seq<Product>>): (r: Step)
    ensures r.requests == [FetchProducts] && r.state == s
    ensures fetched.Ok? ==> r.actions == [Store.SetProducts(fetched.value)]
    ensures fetched.Failed? ==> r.actions == []
  {
    match fetched
    case Ok(products) => Step(s, [FetchProducts], [Store.SetProducts(products)])
    case Failed => Step(s, [FetchProducts], [])
  }

  /** The page opens with a blank form, which the add flow rejects: nothing
      can be created before the required fields are typed in. */
  lemma InitialSubmitRejected(products: seq<Product>, created: Reply<Product>,
                              refetched: Reply<seq<Product>>)
    ensures HandleSubmit(Initial, products, created, refetched) == Step(Initial, [], [])
  {
  }

  /** The sort comparator. `nameCompare` stands for `localeCompare`, whose
      result is locale-dependent; by count it is `a.count - b.count`, whose
      sign says which count is smaller. */
  function Compare(sortType: SortType, nameCompare: (string, string) -> int,
                   a: Product, b: Product): (c: int)
    ensures sortType == ByCount ==> (c < 0 <==> a.count < b.count)
    ensures sortType == ByCount ==> (c == 0 <==> a.count == b.count)
    ensures sortType == ByName ==> c == nameCompare(a.name, b.name)
  {
    match sortType
    case ByName => nameCompare(a.name, b.name)
    case ByCount => a.count - b.count
  }

  /** Name order as the sort reads `localeCompare`: `x` may stay ahead of
      `y` when the comparison is not positive. */
  function NameOrder(nameCompare: (string, string) -> int): (string, string) -> bool {
    (x: string, y: string) => nameCompare(x, y) <= 0
  }

  /** The order a stable sort derives from the comparator: `a` may stay
      ahead of `b` when the comparator is not positive. */
  function ProductLeq(sortType: SortType, nameCompare: (string, string) -> int): (Product, Product) -> bool {
    (a: Product, b: Product) => Compare(sortType, nameCompare, a, b) <= 0
  }

  /** A consistent name comparison makes a consistent product comparison,
      and the count comparison is always consistent. */
  lemma ProductLeqIsTotalPreorder(sortType: SortType, nameCompare: (string, string) -> int)
    requires sortType == ByName ==> Sorting.TotalPreorder(NameOrder(nameCompare))
    ensures Sorting.TotalPreorder(ProductLeq(sortType, nameCompare))
  {
    var leq := ProductLeq(sortType, nameCompare);
    forall a: Product, b: Product
      ensures leq(a, b) || leq(b, a)
    {
      if sortType == ByName {
        assert NameOrder(nameCompare)(a.name, b.name) || NameOrder(nameCompare)(b.name, a.name);
      }
    }
    forall a: Product, b: Product, c: Product | leq(a, b) && leq(b, c)
      ensures leq(a, c)
    {
      if sortType == ByName {
        assert NameOrder(nameCompare)(a.name, b.name) && NameOrder(nameCompare)(b.name, c.name);
      }
    }
  }

  /** `sortedProducts`: a sorted copy of the store's list (the list itself
      is a value and is not reordered). It holds the same products, in the
      selected order. */
  function SortedProducts(products: seq<Product>, sortType: SortType,
                          nameCompare: (string, string) -> int): (r: seq<Product>)
    requires sortType == ByName ==> Sorting.TotalPreorder(NameOrder(nameCompare))
    ensures multiset(r) == multiset(products)
    ensures sortType == ByCount ==> forall i, j :: 0 <= i < j < |r| ==> r[i].count <= r[j].count
    ensures sortType == ByName ==> forall i, j :: 0 <= i < j < |r| ==> nameCompare(r[i].name, r[j].name) <= 0
  {
    ProductLeqIsTotalPreorder(sortType, nameCompare);
    Sorting.SortIsSorted(ProductLeq(sortType, nameCompare), products);
    Sorting.Sort(ProductLeq(sortType, nameCompare), products)
  }

  /** The sort is stable: products that compare equal (the same count, or
      names the comparison ties) appear in the store's order. Sorting the
      sorted view again changes nothing. */
  lemma SortedProductsStableAndIdempotent(products: seq<Product>, sortType: SortType,
                                          nameCompare: (string, string) -> int, p: Product)
    requires sortType == ByName ==> Sorting.TotalPreorder(NameOrder(nameCompare))
    ensures Sorting.TiedWith(ProductLeq(sortType, nameCompare), SortedProducts(products, sortType, nameCompare), p)
         == Sorting.TiedWith(ProductLeq(sortType, nameCompare), products, p)
    ensures SortedProducts(SortedProducts(products, sortType, nameCompare), sortType, nameCompare)
         == SortedProducts(products, sortType, nameCompare)
  {
    ProductLeqIsTotalPreorder(sortType, nameCompare);
    Sorting.SortIsStable(ProductLeq(sortType, nameCompare), products, p);
    Sorting.SortIsIdempotent(ProductLeq(sortType, nameCompare), products);
  }
}
