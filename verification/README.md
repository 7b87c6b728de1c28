# ShopApp page logic in Dafny

ShopApp is a small React catalog manager: a product list page (add, delete,
sort) and a product detail page (edit the product, add and delete comments),
both talking to a REST backend for `products` and `comments`. This project
models the state transitions inside the two pages as pure functions over
the `Product`, `Size` and `CommentModel` records, and proves what they
promise.

Each handler that calls the backend becomes a function from the page's current local state,
plus the backend's reply to every call it makes, to a `Step`:

- the local state it leaves behind;
- the service calls it issues, in order (`Remote.Request`);
- the actions it dispatches to the shared product store (`Store.Action`).

"Rejected before any call is made" therefore reads `requests == []`, and
"a failure is only logged" reads "the state is returned unchanged".

Modules:

- `Types` (types.dfy): `Product`, `Size`, `CommentModel`, the comment draft
  that is posted without an id, and `Option` for `T | null`.
- `Remote` (remote.dfy): backend replies and service calls.
- `Store` (store.dfy): the actions the pages dispatch to the shared store.
- `Form` (product_form.dfy): the six-field form and the input-change
  handler that both pages define identically.
- `JsString` (js_string.dfy): `String.prototype.trim` and the characters
  ECMAScript counts as white space or line terminators.
- `Sorting` (sorting.dfy): the stable sort `Array.prototype.sort` performs,
  with permutation, order, stability and idempotence proved.
- `ListPage` (list_page.dfy) and `DetailPage` (detail_page.dfy): the two
  pages' handlers.

Three behaviours of the code worth knowing:

- Deleting a product does not re-fetch the list. It dispatches a
  delete-by-id action after the server confirms.
- The create call sends the client-computed id with the product.
- A failed load on the detail page has no separate failed state. If the
  product fetch fails, the page stays as it was. If the product arrives but
  its comments do not, the product is shown with the comments it had.

## Model

| member | source | states |
|---|---|---|
| Form.HandleInputChange | src/pages/ProductListPage.tsx:49-55 | The named input takes the typed value, converted to a number for count, width and height. The other five fields keep their values. An unknown input name changes nothing. |
| Form.FieldsDetermineForm | src/pages/ProductListPage.tsx:27-34 | The six fields make up the whole form: two forms that agree on every field are equal. So the per-field contract of `HandleInputChange` fixes its result. |
| Form.FieldNamed | src/pages/ProductListPage.tsx:50-53 | The event's `name` selects the field whose input carries that name. If no field carries it, nothing is selected. |
| Form.FieldNamedRoundTrip | src/pages/ProductListPage.tsx:219-266 | Each of the six inputs routes its events to the field it edits. |
| Form.Coerce | src/pages/ProductListPage.tsx:53 | Count, width and height store `Number(value)`. The other fields store the typed text as it is. |
| Form.MissingRequired | src/pages/ProductListPage.tsx:58 | The submit guard holds exactly when the name, weight or image URL holds the empty string. |
| Form.LastChangeWins | src/pages/ProductListPage.tsx:49-55 | Two changes to the same input leave only the second value. |
| Form.ChangesCommute | src/pages/ProductDetailPage.tsx:52-58 | Changes to two different inputs give the same form in either order. |
| JsString.Trim | src/pages/ProductDetailPage.tsx:100 | `trim` returns a slice of the text that neither starts nor ends with white space. Everything removed on either side is white space. |
| JsString.TrimEmptyIffBlank | src/pages/ProductDetailPage.tsx:100 | The trimmed text is empty exactly when every character is white space. |
| Sorting.Insert | src/pages/ProductListPage.tsx:118 | Insertion adds exactly one element; the multiset grows by it. |
| Sorting.Sort | src/pages/ProductListPage.tsx:118-126 | The sorted copy is a permutation of its input. |
| Sorting.InsertSorted | src/pages/ProductListPage.tsx:118-126 | With a consistent comparator, inserting into an ordered list keeps it ordered. |
| Sorting.SortIsSorted | src/pages/ProductListPage.tsx:118-126 | With a consistent comparator, every element of the sorted copy is `leq` every later one. |
| Sorting.InsertUntied | src/pages/ProductListPage.tsx:118-126 | Inserting an element that does not tie with `p` leaves the run of elements tied with `p` unchanged. |
| Sorting.InsertTied | src/pages/ProductListPage.tsx:118-126 | An element that ties with `p` joins the front of `p`'s run when inserted, ahead of every element it ties with. |
| Sorting.SortIsStable | src/pages/ProductListPage.tsx:118-126 | Elements that compare equal keep their original relative order. |
| Sorting.SortOfSorted | src/pages/ProductListPage.tsx:118-126 | An already ordered list sorts to itself. |
| Sorting.SortIsIdempotent | src/pages/ProductListPage.tsx:118-126 | Sorting the sorted copy again changes nothing. |
| ListPage.MaxId | src/pages/ProductListPage.tsx:63 | The maximum is one of the ids, and no id exceeds it. |
| ListPage.NextId | src/pages/ProductListPage.tsx:63-64 | The new id is 1 for an empty list, otherwise one more than some existing id. It is greater than every existing id, so, with ids as unbounded integers, it is fresh. |
| ListPage.NewProduct | src/pages/ProductListPage.tsx:66-77 | The new product has the given id, copies name, count, weight and image URL from the form, nests width and height into `size`, and has no comments. |
| ListPage.HandleSubmit | src/pages/ProductListPage.tsx:57-96 | A missing name, weight or image URL rejects the submit with no call and no change. A valid form posts the new product, then re-fetches only if the post succeeded. `setProducts(<fetched list>)` is dispatched, the dialog closed and the form cleared exactly when both calls succeed; any failure leaves the page unchanged. |
| ListPage.OpenDeleteModal | src/pages/ProductListPage.tsx:100-103 | Opening the dialog selects the product and leaves the form, add dialog and sort order alone. |
| ListPage.ConfirmDelete | src/pages/ProductListPage.tsx:105-116 | With no selection: no call, no change. Otherwise the selected id is deleted. On success `deleteProduct(id)` is dispatched and the selection is cleared. On failure the page is unchanged. |
| ListPage.DeleteTargetsOpenedProduct | src/pages/ProductListPage.tsx:100-116 | Confirming the dialog deletes the product it was opened for. |
| ListPage.LoadProducts | src/pages/ProductListPage.tsx:36-47 | The initial load issues one list fetch and leaves the page state alone. On success the fetched list goes to the store; on failure nothing is dispatched. |
| ListPage.InitialSubmitRejected | src/pages/ProductListPage.tsx:27-61 | The page opens with a blank form, and submitting it is rejected with no call and no change. |
| ListPage.Compare | src/pages/ProductListPage.tsx:118-126 | By count the comparator's sign is the order of the counts: negative when `a` has fewer, zero when equal. By name it is the `localeCompare` result. |
| ListPage.ProductLeqIsTotalPreorder | src/pages/ProductListPage.tsx:118-126 | "`a` may stay ahead of `b` when the comparator is not positive" is a total preorder for counts always, and for names whenever `localeCompare` is consistent. |
| ListPage.SortedProducts | src/pages/ProductListPage.tsx:118-126 | The sorted view holds the store's products with their multiplicities. By count, counts never decrease. By name, `localeCompare` of each name with every later one is not positive. |
| ListPage.SortedProductsStableAndIdempotent | src/pages/ProductListPage.tsx:118-126 | Products that compare equal appear in the store's order, and sorting the view again changes nothing. |
| DetailPage.Load | src/pages/ProductDetailPage.tsx:35-50 | An absent or empty route id does nothing. Otherwise the product is fetched, and its comments are fetched only after the product arrives. The product is shown if its fetch succeeds; the comments are replaced only if both calls succeed. |
| DetailPage.LoadFromInitial | src/pages/ProductDetailPage.tsx:21-50 | Opening the page when both fetches succeed shows the fetched product and exactly the fetched comments, after one product fetch and one comment fetch. |
| DetailPage.FormOf | src/pages/ProductDetailPage.tsx:62-69 | The edit form shows the product's name, count, width, height, weight and image URL. |
| DetailPage.UpdatePayload | src/pages/ProductDetailPage.tsx:77-87 | The payload keeps the product's id and comment ids, and opening the edit form on it shows exactly the form that produced it. |
| DetailPage.UnchangedFormRoundTrip | src/pages/ProductDetailPage.tsx:62-87 | Building the payload from the product's own edit form gives back the product. |
| DetailPage.PayloadRoundTrip | src/pages/ProductDetailPage.tsx:77-87 | The payload is the only product with that id, those comments and that form. |
| DetailPage.NewProductShowsItsForm | src/pages/ProductListPage.tsx:66-77 | A product created from a form shows that same form when opened for editing. |
| DetailPage.HandleEditClick | src/pages/ProductDetailPage.tsx:60-72 | With a product loaded, the form shows its fields and the dialog opens. Without one, nothing changes. The product, comments and comment input are never touched. |
| DetailPage.HandleUpdate | src/pages/ProductDetailPage.tsx:74-97 | With no product: no call, no change. Otherwise the payload is sent to the product's id. On success the server's record replaces the product on the page, `updateProduct(<server record>)` is dispatched, and the dialog closes. On failure the page is unchanged. |
| DetailPage.EditThenConfirmSendsProduct | src/pages/ProductDetailPage.tsx:60-97 | Opening the edit form and confirming it unchanged sends the current product as it is. |
| DetailPage.NewComment | src/pages/ProductDetailPage.tsx:102-106 | The posted comment carries the loaded product's id, the untrimmed text and the given timestamp. |
| DetailPage.HandleAddComment | src/pages/ProductDetailPage.tsx:99-115 | Blank text or no product: no call, no change. Otherwise one comment is posted. On success the old list is kept as a prefix, the server's comment is appended as the single new last entry, and the input is cleared. On failure the page is unchanged. |
| DetailPage.RemoveById | src/pages/ProductDetailPage.tsx:120 | Every comment with the id goes. Every other comment stays, with its multiplicity. The survivors keep their order, as a subsequence of the old list. |
| DetailPage.RemoveByIdAbsentAndIdempotent | src/pages/ProductDetailPage.tsx:120 | Removing an id no comment has leaves the list unchanged. Removing the same id twice is the same as removing it once. |
| DetailPage.HandleDeleteComment | src/pages/ProductDetailPage.tsx:117-124 | The delete call is always made. On success no comment with that id remains. Every other comment stays, with its multiplicity and in its order. An id no comment carries leaves the page unchanged. On failure the page is unchanged. |

## Left out

- HTTP I/O of src/features/products/ProductService.ts: each call is a `Remote.Request` value, and its reply is an argument of the handler.
- Store reducers (`setProducts`, `deleteProduct`, `updateProduct`): the slice is not part of this model, so only the dispatched actions are stated.
- Asynchronous ordering, responses that arrive after the page is gone, and the `console.error` logging: these are about scheduling and I/O, not the handlers' logic.
- ListPage.NextId: ids are unbounded integers, and the `Number(p.id)` call is the identity on the declared numeric id. The 53-bit precision of JavaScript numbers is not modelled. From 2^53 upward, `maxId + 1` rounds back to `maxId`, so the code's new id would collide with an existing one. There the model's freshness holds only for the integer id.
- JavaScript `Number(...)` parsing of inputs and route ids: this is the parameter `toNumber`. Counts, widths and heights are integers, so floats and NaN are not modelled.
- `localeCompare`: name comparison is the parameter `nameCompare`. Its "not positive" reading must be a total preorder when sorting by name, because it is locale-dependent.
- `new Date().toLocaleString()`: the timestamp is the `date` argument of `HandleAddComment`, because it depends on the clock and the locale.
- The comparator's final `return 0`: unreachable, because the sort type is either "name" or "count".
- Plain setters wired straight to the UI, such as opening or cancelling the add and edit dialogs, choosing the sort type, and typing a comment: each assigns one state field and has no logic to state.
- Form.HandleInputChange: in JavaScript an input name outside the six fields would add an extra key to the form object. The model leaves the form unchanged instead, because every input on both pages carries one of the six names.
- Rendering, modals, routing, navigation, styles and `alert`.
