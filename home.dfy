/**
 * The storefront's product filters (frontend/src/pages/Home.jsx): the list
 * shown is `allProducts` narrowed by up to three `.filter` calls, by brand,
 * by subcategory and by category, each applied only when its filter is set.
 * The category filter keeps products whose subcategory belongs to the
 * selected category, found through the subcategory list.
 */
module Home {
  import opened Seqs
  import opened Refs

  /** A product as `GET /products` serves it: its subcategory is populated, its brand may be anything. */
  datatype Product = Product(id: string, name: string, brand: Ref, subCategory: Ref)

  /** A subcategory as `GET /subcategories` serves it: the route populates `category`. */
  datatype SubCategory = SubCategory(id: string, name: string, category: Ref)

  /** The three selects; `''` means "All". */
  datatype Filters = Filters(category: string, subCategory: string, brand: string)

  datatype FilterKey = CategoryKey | SubCategoryKey | BrandKey

  /** `p.brand?._id === brand`. */
  predicate HasBrand(p: Product, brand: string)
  {
    PopulatedId(p.brand) == Some(brand)
  }

  /** `p.subCategory?._id === subCategory`. */
  predicate HasSubCategory(p: Product, subCategory: string)
  {
    PopulatedId(p.subCategory) == Some(subCategory)
  }

  /** `sc.category === category`, as written: only a bare id string can match. */
  predicate CategoryMatchesAsWritten(sc: SubCategory, category: string)
  {
    sc.category == Raw(category)
  }

  /** `(sc.category?._id || sc.category) === category`: the comparison the product side of the filter already makes. */
  predicate CategoryMatches(sc: SubCategory, category: string)
  {
    IdOf(sc.category) == Some(category)
  }

  /** `.map(sc => sc._id)`. */
  function Ids(subs: seq<SubCategory>): (ids: seq<string>)
    ensures |ids| == |subs| && forall i :: 0 <= i < |subs| ==> ids[i] == subs[i].id
  {
    seq(|subs|, i requires 0 <= i < |subs| => subs[i].id)
  }

  /** `matchedSubCatIds`, for a given way of comparing a subcategory's category with the filter. */
  function MatchedSubCatIds(subs: seq<SubCategory>, category: string, matches: (SubCategory, string) -> bool): (ids: seq<string>)
    ensures forall id :: id in ids <==> exists i :: 0 <= i < |subs| && matches(subs[i], category) && subs[i].id == id
    ensures (forall i :: 0 <= i < |subs| ==> !matches(subs[i], category)) ==> ids == []
  {
    var test := sc => matches(sc, category);
    var kept := Filter(subs, test);
    assert (forall i :: 0 <= i < |subs| ==> !matches(subs[i], category)) ==> kept == [] by {
      if forall i :: 0 <= i < |subs| ==> !matches(subs[i], category) {
        FilterDropsAll(subs, test);
      }
    }
    assert forall i :: 0 <= i < |subs| && matches(subs[i], category) ==> subs[i].id in Ids(kept) by {
      forall i | 0 <= i < |subs| && matches(subs[i], category)
        ensures subs[i].id in Ids(kept)
      {
        var k :| 0 <= k < |kept| && kept[k] == subs[i];
        assert Ids(kept)[k] == subs[i].id;
      }
    }
    assert forall k :: 0 <= k < |kept| ==> exists i :: 0 <= i < |subs| && subs[i] == kept[k];
    Ids(kept)
  }

  /** `matchedSubCatIds.includes(p.subCategory?._id || p.subCategory)`. */
  predicate InSubCategories(p: Product, ids: seq<string>)
  {
    IdOf(p.subCategory).Some? && IdOf(p.subCategory).value in ids
  }

  /** The filter effect's body, lines 28 to 47, for a given category comparison. */
  function Pipeline(all: seq<Product>, subs: seq<SubCategory>, f: Filters, matches: (SubCategory, string) -> bool): seq<Product>
  {
    var byBrand := if f.brand != "" then Filter(all, p => HasBrand(p, f.brand)) else all;
    var bySubCategory := if f.subCategory != "" then Filter(byBrand, p => HasSubCategory(p, f.subCategory)) else byBrand;
    if f.category != "" then
      var ids := MatchedSubCatIds(subs, f.category, matches);
      Filter(bySubCategory, p => InSubCategories(p, ids))
    else bySubCategory
  }

  /** Whether the three active filters all keep `p`, for a given category comparison. */
  predicate Keeps(subs: seq<SubCategory>, f: Filters, matches: (SubCategory, string) -> bool, p: Product)
  {
    && (f.brand != "" ==> HasBrand(p, f.brand))
    && (f.subCategory != "" ==> HasSubCategory(p, f.subCategory))
    && (f.category != "" ==> InSubCategories(p, MatchedSubCatIds(subs, f.category, matches)))
  }

  /** The three filters in sequence are one filter by their conjunction. */
  lemma PipelineIsOneFilter(all: seq<Product>, subs: seq<SubCategory>, f: Filters, matches: (SubCategory, string) -> bool)
    ensures Pipeline(all, subs, f, matches) == Filter(all, p => Keeps(subs, f, matches, p))
  {
    var brand := p => f.brand != "" ==> HasBrand(p, f.brand);
    var sub := p => f.subCategory != "" ==> HasSubCategory(p, f.subCategory);
    var ids := MatchedSubCatIds(subs, f.category, matches);
    var cat := p => f.category != "" ==> InSubCategories(p, ids);
    var brandSub := p => brand(p) && sub(p);
    var byBrand := if f.brand != "" then Filter(all, p => HasBrand(p, f.brand)) else all;
    var bySubCategory := if f.subCategory != "" then Filter(byBrand, p => HasSubCategory(p, f.subCategory)) else byBrand;
    assert byBrand == Filter(all, brand) by {
      if f.brand == "" {
        FilterKeepsAll(all, brand);
      } else {
        FilterSameTest(all, p => HasBrand(p, f.brand), brand);
      }
    }
    assert bySubCategory == Filter(byBrand, sub) by {
      if f.subCategory == "" {
        FilterKeepsAll(byBrand, sub);
      } else {
        FilterSameTest(byBrand, p => HasSubCategory(p, f.subCategory), sub);
      }
    }
    assert Pipeline(all, subs, f, matches) == Filter(bySubCategory, cat) by {
      if f.category == "" {
        FilterKeepsAll(bySubCategory, cat);
      } else {
        FilterSameTest(bySubCategory, p => InSubCategories(p, ids), cat);
      }
    }
    FilterFuse(all, brand, sub, brandSub);
    FilterFuse(all, brandSub, cat, p => Keeps(subs, f, matches, p));
  }

  /**
   * What the effect promises whichever category comparison it uses: with no
   * filter set it shows `allProducts`, it never reorders or invents products,
   * and it shows exactly the products all active filters keep.
   */
  lemma PipelineKeepsExactly(all: seq<Product>, subs: seq<SubCategory>, f: Filters, matches: (SubCategory, string) -> bool)
    ensures f == Filters("", "", "") ==> Pipeline(all, subs, f, matches) == all
    ensures IsSubsequence(Pipeline(all, subs, f, matches), all)
    ensures forall p :: p in Pipeline(all, subs, f, matches) <==> p in all && Keeps(subs, f, matches, p)
  {
    PipelineIsOneFilter(all, subs, f, matches);
    FilterIsSubsequence(all, p => Keeps(subs, f, matches, p));
  }

  /** The effect's result, `setProducts(filtered)`, with the category comparison corrected. */
  function FilterProducts(all: seq<Product>, subs: seq<SubCategory>, f: Filters): (r: seq<Product>)
    ensures f == Filters("", "", "") ==> r == all
    ensures IsSubsequence(r, all)
    ensures forall i :: 0 <= i < |r| ==> r[i] in all && Keeps(subs, f, CategoryMatches, r[i])
    ensures forall i :: 0 <= i < |all| && Keeps(subs, f, CategoryMatches, all[i]) ==> all[i] in r
    ensures f.brand != "" ==> forall i :: 0 <= i < |r| ==> r[i].brand == Populated(f.brand)
    ensures f.subCategory != "" ==> forall i :: 0 <= i < |r| ==> r[i].subCategory == Populated(f.subCategory)
  {
    PipelineIsOneFilter(all, subs, f, CategoryMatches);
    FilterIsSubsequence(all, p => Keeps(subs, f, CategoryMatches, p));
    Pipeline(all, subs, f, CategoryMatches)
  }

  /** With a category selected, a product is shown iff its subcategory is one whose category is the selected one. */
  lemma CategoryFilterKeepsExactly(all: seq<Product>, subs: seq<SubCategory>, f: Filters, p: Product)
    requires f == Filters(f.category, "", "") && f.category != ""
    requires p in all
    ensures p in FilterProducts(all, subs, f) <==>
      exists i :: 0 <= i < |subs| && IdOf(subs[i].category) == Some(f.category) && IdOf(p.subCategory) == Some(subs[i].id)
  {
    var ids := MatchedSubCatIds(subs, f.category, CategoryMatches);
    if InSubCategories(p, ids) {
      var i :| 0 <= i < |subs| && CategoryMatches(subs[i], f.category) && subs[i].id == IdOf(p.subCategory).value;
    }
  }

  /** The order of the three filters does not matter: category first, then subcategory, then brand gives the same list. */
  lemma FilterOrderIrrelevant(all: seq<Product>, subs: seq<SubCategory>, f: Filters)
    ensures
      var brand := p => f.brand != "" ==> HasBrand(p, f.brand);
      var sub := p => f.subCategory != "" ==> HasSubCategory(p, f.subCategory);
      var cat := p => f.category != "" ==> InSubCategories(p, MatchedSubCatIds(subs, f.category, CategoryMatches));
      Filter(Filter(Filter(all, cat), sub), brand) == FilterProducts(all, subs, f)
  {
    var brand := p => f.brand != "" ==> HasBrand(p, f.brand);
    var sub := p => f.subCategory != "" ==> HasSubCategory(p, f.subCategory);
    var cat := p => f.category != "" ==> InSubCategories(p, MatchedSubCatIds(subs, f.category, CategoryMatches));
    var catSub := p => cat(p) && sub(p);
    FilterFuse(all, cat, sub, catSub);
    FilterFuse(all, catSub, brand, p => Keeps(subs, f, CategoryMatches, p));
    PipelineIsOneFilter(all, subs, f, CategoryMatches);
  }

  /** The effect as written: a subcategory list served with populated (or null) categories empties the list under any category filter. */
  lemma CategoryFilterAsWrittenDropsEverything(all: seq<Product>, subs: seq<SubCategory>, f: Filters)
    requires f.category != ""
    requires forall i :: 0 <= i < |subs| ==> !subs[i].category.Raw?
    ensures Pipeline(all, subs, f, CategoryMatchesAsWritten) == []
  {
    var ids := MatchedSubCatIds(subs, f.category, CategoryMatchesAsWritten);

    var byBrand := if f.brand != "" then Filter(all, p => HasBrand(p, f.brand)) else all;
    var bySubCategory := if f.subCategory != "" then Filter(byBrand, p => HasSubCategory(p, f.subCategory)) else byBrand;
    FilterDropsAll(bySubCategory, p => InSubCategories(p, ids));
  }

  /** A concrete case: one product in subcategory "s1" of category "c1", served populated as the routes serve it. */
  lemma CategoryFilterCounterexample(all: seq<Product>, subs: seq<SubCategory>)
    requires all == [Product("p1", "Phone", Missing, Populated("s1"))]
    requires subs == [SubCategory("s1", "Phones", Populated("c1"))]
    ensures Pipeline(all, subs, Filters("c1", "", ""), CategoryMatchesAsWritten) == []
    ensures FilterProducts(all, subs, Filters("c1", "", "")) == all
  {
    CategoryFilterAsWrittenDropsEverything(all, subs, Filters("c1", "", ""));
    assert Keeps(subs, Filters("c1", "", ""), CategoryMatches, all[0]);
    FilterKeepsAll(all, p => Keeps(subs, Filters("c1", "", ""), CategoryMatches, p));
    PipelineIsOneFilter(all, subs, Filters("c1", "", ""), CategoryMatches);
  }

  /** `handleFilterChange`: `{...prev, [name]: value}`. */
  function HandleFilterChange(f: Filters, key: FilterKey, value: string): (r: Filters)
    ensures key == CategoryKey ==> r.category == value && r.subCategory == f.subCategory && r.brand == f.brand
    ensures key == SubCategoryKey ==> r.subCategory == value && r.category == f.category && r.brand == f.brand
    ensures key == BrandKey ==> r.brand == value && r.category == f.category && r.subCategory == f.subCategory
  {
    match key
    case CategoryKey => f.(category := value)
    case SubCategoryKey => f.(subCategory := value)
    case BrandKey => f.(brand := value)
  }

  /** Choosing "All" in the three selects shows every product again, whatever was selected before. */
  lemma ChoosingAllEverywhereShowsEverything(all: seq<Product>, subs: seq<SubCategory>, f: Filters)
    ensures FilterProducts(all, subs,
      HandleFilterChange(HandleFilterChange(HandleFilterChange(f, CategoryKey, ""), SubCategoryKey, ""), BrandKey, "")) == all
  {
  }
}
