/**
 * The admin product editor (frontend/src/components/admin/ProductManagement.jsx):
 * the brand choices narrowed to the selected subcategory, the form's input
 * handler that clears the brand when the subcategory changes, and the six
 * updaters of the variants editor. Each React `setX(prev => ...)` updater is
 * a function from the old state to the new one.
 */
module ProductManagement {
  import opened Seqs
  import opened Refs

  /** A brand as `GET /brands` serves it; its `subCategory` may be populated or a bare id. */
  datatype Brand = Brand(id: string, name: string, subCategory: Ref)

  /** `brand.subCategory === id || (brand.subCategory && brand.subCategory._id === id)`. */
  predicate BelongsTo(b: Brand, subCategoryId: string): (r: bool)
    ensures r <==> IdOf(b.subCategory) == Some(subCategoryId)
  {
    match b.subCategory
    case Raw(ref) => ref == subCategoryId
    case Populated(ref) => ref == subCategoryId
    case Missing => false
  }

  /** `filterBrandsBySubCategory`: no subcategory selected gives no brands. */
  function FilterBrandsBySubCategory(brands: seq<Brand>, subCategoryId: string): (r: seq<Brand>)
    ensures subCategoryId == "" ==> r == []
    ensures subCategoryId != "" ==> IsSubsequence(r, brands)
    ensures subCategoryId != "" ==> forall i :: 0 <= i < |r| ==>
      r[i] in brands && (r[i].subCategory == Raw(subCategoryId) || r[i].subCategory == Populated(subCategoryId))
    ensures subCategoryId != "" ==> forall i :: 0 <= i < |brands| ==>
      (brands[i].subCategory == Raw(subCategoryId) || brands[i].subCategory == Populated(subCategoryId)) ==> brands[i] in r
  {
    if subCategoryId == "" then []
    else
      var belongs := b => BelongsTo(b, subCategoryId);
      FilterIsSubsequence(brands, belongs);
      Filter(brands, belongs)
  }

  /** Each matching brand is offered as often as it is listed, and no other brand is. */
  lemma FilterBrandsKeepsMultiplicity(brands: seq<Brand>, subCategoryId: string, b: Brand)
    requires subCategoryId != ""
    ensures multiset(FilterBrandsBySubCategory(brands, subCategoryId))[b] ==
      if BelongsTo(b, subCategoryId) then multiset(brands)[b] else 0
  {
    FilterMultiplicity(brands, b => BelongsTo(b, subCategoryId), b);
  }

  /** The product form's fields; `price` is the text of the input, parsed only on submit. */
  datatype ProductFormData = ProductFormData(
    name: string, subCategory: string, brand: string, price: string, description: string, inStock: bool)

  datatype EditorState = EditorState(form: ProductFormData, filteredBrands: seq<Brand>)

  datatype TextField = NameField | PriceField | SubCategoryField | BrandField | DescriptionField

  /** A change event: a text input or select, or the `inStock` checkbox. */
  datatype InputEvent = TextChange(field: TextField, value: string) | InStockChange(checked: bool)

  function SetField(form: ProductFormData, field: TextField, value: string): ProductFormData
  {
    match field
    case NameField => form.(name := value)
    case PriceField => form.(price := value)
    case SubCategoryField => form.(subCategory := value)
    case BrandField => form.(brand := value)
    case DescriptionField => form.(description := value)
  }

  /**
   * `handleInputChange`: `{...prev, [name]: newValue}`, and for the
   * subcategory select the brand choices are recomputed from `brands` and a
   * second updater sets `brand` back to `''`.
   */
  function HandleInputChange(s: EditorState, brands: seq<Brand>, e: InputEvent): (r: EditorState)
    ensures e.TextChange? && e.field == SubCategoryField ==>
      && r.form == s.form.(subCategory := e.value, brand := "")
      && r.filteredBrands == FilterBrandsBySubCategory(brands, e.value)
    ensures e.TextChange? && e.field == NameField ==> r == s.(form := s.form.(name := e.value))
    ensures e.TextChange? && e.field == PriceField ==> r == s.(form := s.form.(price := e.value))
    ensures e.TextChange? && e.field == BrandField ==> r == s.(form := s.form.(brand := e.value))
    ensures e.TextChange? && e.field == DescriptionField ==> r == s.(form := s.form.(description := e.value))
    ensures e.InStockChange? ==> r == s.(form := s.form.(inStock := e.checked))
  {
    match e
    case TextChange(field, value) =>
      var form := SetField(s.form, field, value);
      if field == SubCategoryField then
        EditorState(form.(brand := ""), FilterBrandsBySubCategory(brands, value))
      else
        s.(form := form)
    case InStockChange(checked) =>
      s.(form := s.form.(inStock := checked))
  }

  /** Every offered brand belongs to the selected subcategory. */
  predicate OffersOnlyMatchingBrands(s: EditorState)
  {
    forall i :: 0 <= i < |s.filteredBrands| ==> BelongsTo(s.filteredBrands[i], s.form.subCategory)
  }

  /** The selected brand is empty or one of the offered brands. */
  predicate BrandIsOffered(s: EditorState)
  {
    s.form.brand == "" || exists i :: 0 <= i < |s.filteredBrands| && s.filteredBrands[i].id == s.form.brand
  }

  /** The brand select offers `''` and the ids of `filteredBrands`. */
  predicate IsOfferedChoice(s: EditorState, e: InputEvent)
  {
    e.TextChange? && e.field == BrandField ==>
      e.value == "" || exists i :: 0 <= i < |s.filteredBrands| && s.filteredBrands[i].id == e.value
  }

  /**
   * Whatever the user types or selects, the brand choices stay those of the
   * selected subcategory and the selected brand stays one of them.
   */
  lemma HandleInputChangeKeepsBrandConsistent(s: EditorState, brands: seq<Brand>, e: InputEvent)
    requires OffersOnlyMatchingBrands(s) && BrandIsOffered(s)
    requires IsOfferedChoice(s, e)
    ensures OffersOnlyMatchingBrands(HandleInputChange(s, brands, e))
    ensures BrandIsOffered(HandleInputChange(s, brands, e))
  {
    var r := HandleInputChange(s, brands, e);
    if e.TextChange? && e.field == SubCategoryField && e.value != "" {
      forall i | 0 <= i < |r.filteredBrands|
        ensures BelongsTo(r.filteredBrands[i], r.form.subCategory)
      {
      }
    }
  }

  /** One variant in the variants editor: a name and its list of values. */
  datatype EditorVariant = EditorVariant(name: string, values: seq<string>)

  /** `addVariant`: appends `{name: '', values: ['']}`. */
  function AddVariant(variants: seq<EditorVariant>): (r: seq<EditorVariant>)
    ensures |r| == |variants| + 1 && r[..|variants|] == variants
    ensures r[|variants|] == EditorVariant("", [""])
  {
    variants + [EditorVariant("", [""])]
  }

  /** `removeVariant(index)`: keeps every variant whose position is not `index`. */
  function RemoveVariant(variants: seq<EditorVariant>, index: int): (r: seq<EditorVariant>)
    ensures |r| == |variants| - 1 <==> 0 <= index < |variants|
    ensures 0 <= index < |variants| ==>
      (forall j :: 0 <= j < index ==> r[j] == variants[j]) &&
      (forall j :: index <= j < |r| ==> r[j] == variants[j + 1])
    ensures !(0 <= index < |variants|) ==> r == variants
  {
    RemoveAt(variants, index)
  }

  /** `updateVariant(index, 'name', value)`, the only field the editor passes. */
  function UpdateVariantName(variants: seq<EditorVariant>, index: int, value: string): (r: seq<EditorVariant>)
    ensures |r| == |variants|
    ensures forall j :: 0 <= j < |variants| && j != index ==> r[j] == variants[j]
    ensures 0 <= index < |variants| ==> r[index].name == value && r[index].values == variants[index].values
  {
    MapAt(variants, index, (v: EditorVariant) => v.(name := value))
  }

  /** `addVariantValue(variantIndex)`: appends `''` to that variant's values. */
  function AddVariantValue(variants: seq<EditorVariant>, variantIndex: int): (r: seq<EditorVariant>)
    ensures |r| == |variants|
    ensures forall j :: 0 <= j < |variants| && j != variantIndex ==> r[j] == variants[j]
    ensures 0 <= variantIndex < |variants| ==>
      r[variantIndex].name == variants[variantIndex].name &&
      r[variantIndex].values == variants[variantIndex].values + [""]
  {
    MapAt(variants, variantIndex, (v: EditorVariant) => v.(values := v.values + [""]))
  }

  /** `removeVariantValue(variantIndex, valueIndex)`: drops that value if both positions exist. */
  function RemoveVariantValue(variants: seq<EditorVariant>, variantIndex: int, valueIndex: int): (r: seq<EditorVariant>)
    ensures |r| == |variants|
    ensures forall j :: 0 <= j < |variants| && j != variantIndex ==> r[j] == variants[j]
    ensures 0 <= variantIndex < |variants| ==>
      r[variantIndex].name == variants[variantIndex].name &&
      r[variantIndex].values == RemoveAt(variants[variantIndex].values, valueIndex)
  {
    MapAt(variants, variantIndex, (v: EditorVariant) => v.(values := RemoveAt(v.values, valueIndex)))
  }

  /** `updateVariantValue(variantIndex, valueIndex, value)`: rewrites one value slot. */
  function UpdateVariantValue(variants: seq<EditorVariant>, variantIndex: int, valueIndex: int, value: string): (r: seq<EditorVariant>)
    ensures |r| == |variants|
    ensures forall j :: 0 <= j < |variants| && j != variantIndex ==> r[j] == variants[j]
    ensures 0 <= variantIndex < |variants| ==>
      r[variantIndex].name == variants[variantIndex].name &&
      |r[variantIndex].values| == |variants[variantIndex].values| &&
      (0 <= valueIndex < |variants[variantIndex].values| ==> r[variantIndex].values[valueIndex] == value) &&
      forall k :: 0 <= k < |variants[variantIndex].values| && k != valueIndex ==>
        r[variantIndex].values[k] == variants[variantIndex].values[k]
  {
    MapAt(variants, variantIndex, (v: EditorVariant) => v.(values := MapAt(v.values, valueIndex, (_: string) => value)))
  }

  /** Removing the variant just added restores the list. */
  lemma RemoveUndoesAddVariant(variants: seq<EditorVariant>)
    ensures RemoveVariant(AddVariant(variants), |variants|) == variants
  {
  }

  /** Removing the value just added restores the list. */
  lemma RemoveUndoesAddVariantValue(variants: seq<EditorVariant>, i: int)
    ensures 0 <= i < |variants| ==>
      RemoveVariantValue(AddVariantValue(variants, i), i, |variants[i].values|) == variants
  {
    if 0 <= i < |variants| {
      var r := RemoveVariantValue(AddVariantValue(variants, i), i, |variants[i].values|);
      assert r[i] == variants[i];
    }
  }

  /** Two edits of the same value slot: the second one wins. */
  lemma UpdateVariantValueLastWins(variants: seq<EditorVariant>, i: int, j: int, a: string, b: string)
    ensures UpdateVariantValue(UpdateVariantValue(variants, i, j, a), i, j, b) == UpdateVariantValue(variants, i, j, b)
  {
    var r, s := UpdateVariantValue(UpdateVariantValue(variants, i, j, a), i, j, b), UpdateVariantValue(variants, i, j, b);
    if 0 <= i < |variants| {
      assert r[i].values == s[i].values;
    }
  }

  /** Rewriting a value slot with what it already holds changes nothing. */
  lemma UpdateVariantValueWithSameValue(variants: seq<EditorVariant>, i: int, j: int)
    requires 0 <= i < |variants| && 0 <= j < |variants[i].values|
    ensures UpdateVariantValue(variants, i, j, variants[i].values[j]) == variants
  {
    var r := UpdateVariantValue(variants, i, j, variants[i].values[j]);
    assert r[i].values == variants[i].values;
  }
}
