/** The state transitions of the product detail page
    (src/pages/ProductDetailPage.tsx): loading a product with its comments,
    editing the product, and adding and deleting comments. */
module DetailPage {
  import opened Types
  import opened Form
  import opened Remote
  import Store
  import JsString
  import ListPage

  /** The page's local state (its `useState` hooks); `product` is `None`
      while nothing has been loaded. */
  datatype DetailState = DetailState(
    product: Option<Product>,
    comments: seq<CommentModel>,
    newCommentText: string,
    editOpen: bool,
    form: ProductForm)

  const Initial := DetailState(None, [], "", false, Blank)

  /** What one handler does: the local state it leaves, the service calls it
      issues in order, and the store actions it dispatches. */
  datatype Step = Step(state: DetailState, requests: seq<Request>, actions: seq<Store.Action>)

  /** The page's load effect for the route parameter `routeId` (absent or
      empty: nothing happens). The product is fetched first and shown as
      soon as it arrives; its comments are fetched only after that and
      shown only if that call succeeds too. Failures are only logged, so a
      failed product fetch leaves the page as it was. `toNumber` stands for
      JavaScript's `Number`. */
  function Load(s: DetailState, routeId: Option<string>, toNumber: string -> int,
                fetched: Reply<Product>, fetchedComments: Reply<seq<CommentModel>>): (r: Step)
    ensures routeId.None? || routeId.value == "" ==> r == Step(s, [], [])
    ensures routeId.Some? && routeId.value != "" ==>
              var id := toNumber(routeId.value);
              && r.requests == [FetchProductById(id)] + (if fetched.Ok? then [FetchComments(id)] else [])
              && r.actions == []
              && r.state.product == (if fetched.Ok? then Some(fetched.value) else s.product)
              && r.state.comments == (if fetched.Ok? && fetchedComments.Ok? then fetchedComments.value
                                      else s.comments)
              && r.state.form == s.form && r.state.editOpen == s.editOpen
              && r.state.newCommentText == s.newCommentText
  {
    if routeId.None? || routeId.value == "" then Step(s, [], [])
    else
      var id := toNumber(routeId.value);
      match fetched
      case Failed => Step(s, [FetchProductById(id)], [])
      case Ok(p) =>
        var shown := s.(product := Some(p));
        match fetchedComments
        case Failed => Step(shown, [FetchProductById(id), FetchComments(id)], [])
        case Ok(cs) => Step(shown.(comments := cs), [FetchProductById(id), FetchComments(id)], [])
  }

  /** Opening the page on a product whose fetches both succeed shows the
      product with exactly the fetched comments. */
  lemma LoadFromInitial(routeId: string, toNumber: string -> int, p: Product,
                        cs: seq<CommentModel>)
    requires routeId != ""
    ensures var r := Load(Initial, Some(routeId), toNumber, Ok(p), Ok(cs));
            && r.state == Initial.(product := Some(p), comments := cs)
            && r.requests == [FetchProductById(toNumber(routeId)), FetchComments(toNumber(routeId))]
  {
  }

  /** The edit form for a product: its name, count, width, height, weight
      and image URL. */
  function FormOf(p: Product): (f: ProductForm)
    ensures Get(f, Name) == Text(p.name) && Get(f, Count) == Number(p.count)
    ensures Get(f, Width) == Number(p.size.width) && Get(f, Height) == Number(p.size.height)
    ensures Get(f, Weight) == Text(p.weight) && Get(f, ImageUrl) == Text(p.imageUrl)
  {
    ProductForm(p.name, p.count, p.size.width, p.size.height, p.weight, p.imageUrl)
  }

  /** The body `handleUpdate` sends: the product with the form's fields
      spread over it. It keeps the product's id and comment ids, and
      projects back onto exactly the form. */
  function UpdatePayload(p: Product, f: ProductForm): (q: Product)
    ensures q.id == p.id && q.comments == p.comments
    ensures FormOf(q) == f
  {
    p.(name := f.name, count := f.count, size := Size(f.width, f.height),
       weight := f.weight, imageUrl := f.imageUrl)
  }

  /** Confirming an edit form opened on `p` without changing it sends `p`
      itself. */
  lemma UnchangedFormRoundTrip(p: Product)
    ensures UpdatePayload(p, FormOf(p)) == p
  {
  }

  /** A payload is determined by the product it starts from and the form:
      opening the edit form on the payload shows that form again. */
  lemma PayloadRoundTrip(p: Product, f: ProductForm)
    ensures FormOf(UpdatePayload(p, f)) == f
    ensures forall q: Product :: q.id == p.id && q.comments == p.comments && FormOf(q) == f
                        ==> q == UpdatePayload(p, f)
  {
  }

  /** A product the list page creates, opened for editing, shows the form it
      was built from. */
  lemma NewProductShowsItsForm(f: ProductForm, id: int)
    ensures FormOf(ListPage.NewProduct(f, id)) == f
  {
  }

  /** `handleEditClick`: with a product loaded, the form is filled from it
      and the dialog opens; otherwise nothing happens. */
  function HandleEditClick(s: DetailState): (r: DetailState)
    ensures s.product.None? ==> r == s
    ensures s.product.Some? ==>
              && r.editOpen
              && forall g :: Get(r.form, g) == Get(FormOf(s.product.value), g)
    ensures r.product == s.product && r.comments == s.comments
    ensures r.newCommentText == s.newCommentText
  {
    match s.product
    case None => s
    case Some(p) => s.(form := FormOf(p), editOpen := true)
  }

  /** `handleUpdate`, given the reply to the update call. With no product
      loaded nothing happens. Otherwise the payload goes to the product's
      id; on success the server's record replaces the product on the page
      and in the store and the dialog closes; on failure the page is left
      as it was. */
  function HandleUpdate(s: DetailState, updated: Reply<Product>): (r: Step)
    ensures s.product.None? ==> r == Step(s, [], [])
    ensures s.product.Some? ==>
              r.requests == [UpdateProduct(s.product.value.id, UpdatePayload(s.product.value, s.form))]
    ensures s.product.Some? && updated.Ok? ==>
              && r.actions == [Store.UpdateProduct(updated.value)]
              && r.state == s.(product := Some(updated.value), editOpen := false)
    ensures updated.Failed? ==> r.state == s && r.actions == []
  {
    match s.product
    case None => Step(s, [], [])
    case Some(p) =>
      var request := UpdateProduct(p.id, UpdatePayload(p, s.form));
      match updated
      case Failed => Step(s, [request], [])
      case Ok(q) =>
        Step(s.(product := Some(q), editOpen := false), [request], [Store.UpdateProduct(q)])
  }

  /** Opening the edit form and confirming it unchanged asks the server to
      store the current product as it is. */
  lemma EditThenConfirmSendsProduct(s: DetailState, updated: Reply<Product>)
    requires s.product.Some?
    ensures HandleUpdate(HandleEditClick(s), updated).requests
         == [UpdateProduct(s.product.value.id, s.product.value)]
  {
  }

  /** The comment `handleAddComment` posts: the loaded product's id, the
      text as typed (not trimmed) and the caller's timestamp. */
  function NewComment(p: Product, text: string, date: string): (c: CommentDraft)
    ensures c.productId == p.id && c.description == text && c.date == date
  {
    CommentDraft(p.id, text, date)
  }

  /** `handleAddComment`, given the timestamp string and the reply to the
      create call. Blank text (empty or white space only) or no loaded
      product: nothing happens. Otherwise the comment is posted; on success
      the server's comment is appended and the input cleared; on failure
      the page is left as it was. */
  function HandleAddComment(s: DetailState, date: string, added: Reply<CommentModel>): (r: Step)
    ensures JsString.IsBlank(s.newCommentText) || s.product.None? ==> r == Step(s, [], [])
    ensures !JsString.IsBlank(s.newCommentText) && s.product.Some? ==>
              r.requests == [AddComment(NewComment(s.product.value, s.newCommentText, date))]
    ensures r.actions == []
    ensures added.Failed? ==> r.state == s
    ensures !JsString.IsBlank(s.newCommentText) && s.product.Some? && added.Ok? ==>
              && |r.state.comments| == |s.comments| + 1
              && r.state.comments[..|s.comments|] == s.comments
              && r.state.comments[|s.comments|] == added.value
              && r.state == s.(comments := r.state.comments, newCommentText := "")
  {
    JsString.TrimEmptyIffBlank(s.newCommentText);
    if JsString.Trim(s.newCommentText) == [] || s.product.None? then Step(s, [], [])
    else
      var request := AddComment(NewComment(s.product.value, s.newCommentText, date));
      match added
      case Failed => Step(s, [request], [])
      case Ok(c) => Step(s.(comments := s.comments + [c], newCommentText := ""), [request], [])
  }

  /** `a` is `b` with some elements left out, the rest in their order. */
  ghost predicate IsSubsequence<T>(a: seq<T>, b: seq<T>)
    decreases |b|
  {
    if a == [] then true
    else if b == [] then false
    else if a[0] == b[0] then IsSubsequence(a[1..], b[1..])
    else IsSubsequence(a, b[1..])
  }

  /** `comments.filter(c => c.id !== id)`: every comment with that id goes,
      every other comment stays (with its multiplicity), and the survivors
      keep their order. */
  function RemoveById(comments: seq<CommentModel>, id: int): (r: seq<CommentModel>)
    ensures forall c :: multiset(r)[c] == if c.id == id then 0 else multiset(comments)[c]
    ensures IsSubsequence(r, comments)
  {
    if comments == [] then []
    else
      assert comments == [comments[0]] + comments[1..];
      var rest := RemoveById(comments[1..], id);
      if comments[0].id != id then [comments[0]] + rest else rest
  }

  /** Deleting an id no comment carries leaves the list as it was; deleting
      the same id twice is the same as deleting it once. */
  lemma {:induction false} RemoveByIdAbsentAndIdempotent(comments: seq<CommentModel>, id: int)
    ensures (forall i :: 0 <= i < |comments| ==> comments[i].id != id) ==> RemoveById(comments, id) == comments
    ensures RemoveById(RemoveById(comments, id), id) == RemoveById(comments, id)
  {
    if comments != [] {
      RemoveByIdAbsentAndIdempotent(comments[1..], id);
      var rest := RemoveById(comments[1..], id);
      if comments[0].id != id {
        assert ([comments[0]] + rest)[1..] == rest;
      }
    }
  }

  /** `handleDeleteComment`, given the reply to the delete call: the call is
      always made; on success the comment list loses every comment with
      that id, on failure the page is left as it was. */
  function HandleDeleteComment(s: DetailState, commentId: int, deleted: Reply<()>): (r: Step)
    ensures r.requests == [DeleteComment(commentId)] && r.actions == []
    ensures deleted.Failed? ==> r.state == s
    ensures deleted.Ok? ==>
              && (forall c :: c in r.state.comments ==> c.id != commentId)
              && (forall c :: multiset(r.state.comments)[c]
                               == if c.id == commentId then 0 else multiset(s.comments)[c])
              && IsSubsequence(r.state.comments, s.comments)
              && r.state == s.(comments := r.state.comments)
    ensures (deleted.Ok? && forall i :: 0 <= i < |s.comments| ==> s.comments[i].id != commentId) ==>
              r.state == s
  {
    match deleted
    case Failed => Step(s, [DeleteComment(commentId)], [])
    case Ok(_) =>
      var kept := RemoveById(s.comments, commentId);
      assert forall c :: c in kept <==> multiset(kept)[c] > 0;
      RemoveByIdAbsentAndIdempotent(s.comments, commentId);
      Step(s.(comments := kept), [DeleteComment(commentId)], [])
  }
}
