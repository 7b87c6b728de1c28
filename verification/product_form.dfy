/** The six-field product form both pages keep in local state, and the
    change handler they share (src/pages/ProductListPage.tsx and
    src/pages/ProductDetailPage.tsx define it identically). */
module Form {
  import opened Types

  datatype ProductForm = ProductForm(
    name: string,
    count: int,
    width: int,
    height: int,
    weight: string,
    imageUrl: string)

  /** The form both pages start with, and the one the list page resets to. */
  const Blank := ProductForm("", 0, 0, 0, "", "")

  /** The inputs of the form, by their `name` attribute. */
  datatype Field = Name | Count | Width | Height | Weight | ImageUrl

  /** What a form field holds: text, or a number for the numeric inputs. */
  datatype FieldValue = Text(text: string) | Number(number: int)

  /** The `name` attribute of the input that edits a field. */
  function AttributeName(f: Field): string {
    match f
    case Name => "name"
    case Count => "count"
    case Width => "width"
    case Height => "height"
    case Weight => "weight"
    case ImageUrl => "imageUrl"
  }

  /** The field an input's `name` attribute designates: the field carrying
      that attribute name, or none when no field does. */
  function FieldNamed(name: string): (f: Option<Field>)
    ensures f.Some? ==> AttributeName(f.value) == name
    ensures f.None? ==> forall g :: AttributeName(g) != name
  {
    match name
    case "name" => Some(Name)
    case "count" => Some(Count)
    case "width" => Some(Width)
    case "height" => Some(Height)
    case "weight" => Some(Weight)
    case "imageUrl" => Some(ImageUrl)
    case _ => None
  }

  /** Every input's event is routed to the field the input edits. */
  lemma FieldNamedRoundTrip(f: Field)
    ensures FieldNamed(AttributeName(f)) == Some(f)
  {
  }

  predicate IsNumeric(f: Field) {
    f == Count || f == Width || f == Height
  }

  /** Reads one field of the form. */
  function Get(form: ProductForm, f: Field): FieldValue {
    match f
    case Name => Text(form.name)
    case Count => Number(form.count)
    case Width => Number(form.width)
    case Height => Number(form.height)
    case Weight => Text(form.weight)
    case ImageUrl => Text(form.imageUrl)
  }

  /** Two forms holding the same value in every field are the same form. */
  lemma FieldsDetermineForm(a: ProductForm, b: ProductForm)
    requires forall f :: Get(a, f) == Get(b, f)
    ensures a == b
  {
    assert Get(a, Name) == Get(b, Name);
    assert Get(a, Count) == Get(b, Count);
    assert Get(a, Width) == Get(b, Width);
    assert Get(a, Height) == Get(b, Height);
    assert Get(a, Weight) == Get(b, Weight);
    assert Get(a, ImageUrl) == Get(b, ImageUrl);
  }

  /** Writes one field. Only meaningful for a value of the field's kind. */
  function Set(form: ProductForm, f: Field, v: FieldValue): (r: ProductForm)
    requires IsNumeric(f) <==> v.Number?
    ensures Get(r, f) == v
    ensures forall g :: g != f ==> Get(r, g) == Get(form, g)
  {
    match f
    case Name => form.(name := v.text)
    case Count => form.(count := v.number)
    case Width => form.(width := v.number)
    case Height => form.(height := v.number)
    case Weight => form.(weight := v.text)
    case ImageUrl => form.(imageUrl := v.text)
  }

  /** The value an input event stores: the raw text, or `Number(value)` for
      the numeric inputs. `toNumber` stands for JavaScript's `Number`. */
  function Coerce(f: Field, value: string, toNumber: string -> int): (v: FieldValue)
    ensures IsNumeric(f) <==> v.Number?
    ensures v.Number? ==> v.number == toNumber(value)
    ensures v.Text? ==> v.text == value
  {
    if IsNumeric(f) then Number(toNumber(value)) else Text(value)
  }

  /** `handleInputChange`: the input named `name` now holds `value`
      (coerced for the numeric inputs) and every other field keeps its
      value. An event from an input with any other name leaves the six
      fields as they were. */
  function HandleInputChange(form: ProductForm, name: string, value: string,
                             toNumber: string -> int): (r: ProductForm)
    ensures FieldNamed(name).Some? ==>
              && Get(r, FieldNamed(name).value) == Coerce(FieldNamed(name).value, value, toNumber)
              && forall g :: g != FieldNamed(name).value ==> Get(r, g) == Get(form, g)
    ensures FieldNamed(name).None? ==> r == form
  {
    match FieldNamed(name)
    case Some(f) => Set(form, f, Coerce(f, value, toNumber))
    case None => form
  }

  /** Typing into the same input twice keeps only the second value. */
  lemma LastChangeWins(form: ProductForm, name: string, v1: string, v2: string,
                       toNumber: string -> int)
    ensures HandleInputChange(HandleInputChange(form, name, v1, toNumber), name, v2, toNumber)
         == HandleInputChange(form, name, v2, toNumber)
  {
  }

  /** Changes to two different inputs do not interfere: either order gives
      the same form. */
  lemma ChangesCommute(form: ProductForm, n1: string, v1: string, n2: string, v2: string,
                       toNumber: string -> int)
    requires n1 != n2
    ensures HandleInputChange(HandleInputChange(form, n1, v1, toNumber), n2, v2, toNumber)
         == HandleInputChange(HandleInputChange(form, n2, v2, toNumber), n1, v1, toNumber)
  {
  }

  /** The fields the add flow insists on: name, weight and image URL. */
  predicate IsRequired(f: Field) {
    f == Name || f == Weight || f == ImageUrl
  }

  /** The required-field check of the add flow, `!name || !weight ||
      !imageUrl`, where only the empty string is falsy: some required field
      holds no text. */
  function MissingRequired(form: ProductForm): (missing: bool)
    ensures missing <==> exists f :: IsRequired(f) && Get(form, f) == Text("")
  {
    if form.name == "" then
      assert Get(form, Name) == Text("");
      true
    else if form.weight == "" then
      assert Get(form, Weight) == Text("");
      true
    else if form.imageUrl == "" then
      assert Get(form, ImageUrl) == Text("");
      true
    else false
  }
}
