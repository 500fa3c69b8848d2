/**
 * The admin subcategory editor (frontend/src/components/admin/SubCategoryManagement.jsx):
 * the parent-category choices limited to active categories, opening the
 * form on an existing subcategory, and closing the form again. The list's
 * pagination is the Pagination module.
 */
module SubCategoryManagement {
  import opened Seqs
  import opened Refs

  datatype Category = Category(id: string, name: string, isActive: bool)

  /** `response.data.filter(cat => cat.isActive)`: the categories the form offers, in server order. */
  function ActiveCategories(categories: seq<Category>): (r: seq<Category>)
    ensures IsSubsequence(r, categories)
    ensures forall i :: 0 <= i < |r| ==> r[i] in categories && r[i].isActive
    ensures forall i :: 0 <= i < |categories| && categories[i].isActive ==> categories[i] in r
    ensures forall c :: multiset(r)[c] == if c.isActive then multiset(categories)[c] else 0
  {
    var active := (c: Category) => c.isActive;
    FilterIsSubsequence(categories, active);
    assert forall c :: multiset(Filter(categories, active))[c] == if c.isActive then multiset(categories)[c] else 0 by {
      forall c { FilterMultiplicity(categories, active, c); }
    }
    Filter(categories, active)
  }

  /** A subcategory as `GET /subcategories` serves it; `category` is populated, or null once its category is gone. */
  datatype SubCategory = SubCategory(id: string, name: string, category: Ref, description: Option<string>, isActive: bool)

  datatype SubCategoryFormData = SubCategoryFormData(name: string, category: string, description: string, isActive: bool)

  /** The component's form state: the form fields, the subcategory being edited, whether the form is open, the error banner. */
  datatype SubCategoryEditor = SubCategoryEditor(
    form: SubCategoryFormData, editing: Option<SubCategory>, showForm: bool, error: string)

  /** The `useState` initial values of the four pieces of form state. */
  function InitialEditor(): (s: SubCategoryEditor)
    ensures s.form.name == "" && s.form.category == "" && s.form.description == "" && s.form.isActive
    ensures s.editing.None? && !s.showForm && s.error == ""
  {
    SubCategoryEditor(SubCategoryFormData("", "", "", true), None, false, "")
  }

  /**
   * `handleEdit(subCategory)`. With a null `category`, `subCategory.category._id`
   * throws after `setEditingSubCategory` has been queued: only `editing` changes
   * and the form stays as it was.
   */
  function HandleEdit(s: SubCategoryEditor, sub: SubCategory): (r: SubCategoryEditor)
    ensures r.editing == Some(sub) && r.error == s.error
    ensures sub.category.Missing? ==> r.form == s.form && r.showForm == s.showForm
    ensures !sub.category.Missing? ==>
      && r.showForm
      && r.form.name == sub.name
      && Some(r.form.category) == IdOf(sub.category)
      && r.form.isActive == sub.isActive
      && (sub.description.Some? ==> r.form.description == sub.description.value)
      && (sub.description.None? ==> r.form.description == "")
  {
    match sub.category
    case Missing => s.(editing := Some(sub))
    case _ =>
      var description := if sub.description.Some? then sub.description.value else "";
      SubCategoryEditor(SubCategoryFormData(sub.name, sub.category.id, description, sub.isActive), Some(sub), true, s.error)
  }

  /** `resetForm()`: empty fields, nothing being edited, form closed, error cleared. */
  function ResetForm(s: SubCategoryEditor): (r: SubCategoryEditor)
    ensures r == InitialEditor()
  {
    InitialEditor()
  }

  /** The subcategory `handleEdit` opened, as its form fields would save it. */
  function FormAsSubCategory(s: SubCategoryEditor, id: string): SubCategory
  {
    SubCategory(id, s.form.name, Raw(s.form.category), Some(s.form.description), s.form.isActive)
  }

  /**
   * Opening a subcategory and saving the form unchanged gives the same
   * subcategory back, with its category as a bare id and a missing
   * description as empty.
   */
  lemma EditThenSaveRoundTrip(s: SubCategoryEditor, sub: SubCategory)
    requires !sub.category.Missing?
    ensures FormAsSubCategory(HandleEdit(s, sub), sub.id) ==
      sub.(category := Raw(sub.category.id),
           description := Some(if sub.description.Some? then sub.description.value else ""))
  {
  }

  /** Whatever was open before, editing a subcategory shows the same form. */
  lemma HandleEditForgetsPreviousForm(s1: SubCategoryEditor, s2: SubCategoryEditor, sub: SubCategory)
    requires !sub.category.Missing?
    ensures HandleEdit(s1, sub).form == HandleEdit(s2, sub).form
  {
  }

  /** Editing and then cancelling brings the editor back to its initial state. */
  lemma ResetAfterEditIsInitial(s: SubCategoryEditor, sub: SubCategory)
    ensures ResetForm(HandleEdit(s, sub)) == InitialEditor()
  {
  }
}
