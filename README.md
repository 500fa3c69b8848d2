# Product catalogue: verified model of the slug, filter, pagination and form logic

The system is a small product catalogue. A Mongoose/Express API stores
categories, subcategories, brands and products. A React front end has a
storefront page and admin screens. This project models the parts of it that
compute something, and proves what they promise:

- **Brand slugs** (`product-api/models/Brand.js`). `generateSlug` lower-cases
  a brand name, removes every character other than `a-z`, `0-9`, space and
  `-`, turns runs of whitespace into `-`, collapses runs of `-`, and finally
  calls `trim`. The `pre('save')` hook gives a brand without a slug the first
  of `base`, `base-1`, `base-2`, ... that no other brand holds. The hook's
  `findOne` query is modelled as a snapshot set of the other brands' slugs. The
  loop is a method with a loop invariant and a termination measure, and the
  document is a class whose `slug` field the hook assigns.
- **Admin product editor** (`frontend/src/components/admin/ProductManagement.jsx`).
  It offers the brands of the selected subcategory and clears the chosen brand
  when the subcategory changes. It has six updaters for the variants editor
  and client-side pagination. Every React updater is a function from the old
  state to the new one.
- **Admin subcategory editor** (`frontend/src/components/admin/SubCategoryManagement.jsx`).
  The parent-category choices are the active categories. `handleEdit` opens
  the form on a subcategory and `resetForm` closes it. The pagination bar is
  shared with the product editor (module `Pagination`).
- **Storefront filters** (`frontend/src/pages/Home.jsx`). Up to three `.filter`
  passes run over all products, by brand, by subcategory and by category, and
  `handleFilterChange` sets one filter.
- **Simple product form** (`frontend/src/components/ProductForm.jsx`). Variant
  rows are objects the form's array points to. `handleVariantChange` writes
  into the shared row through a shallow copy, so they are a class. Submitting
  splits each row's `values` text on `,` and trims the pieces, then resets the
  form.

A reference field (a brand's subcategory, a product's brand, a subcategory's
category) reaches the browser in one of three shapes. It is absent, a bare id
string, or a populated document carrying `_id`, depending on the route that
served it (`Refs.Ref`). MongoDB ids are never empty, so `x._id || x` is the id
in both present shapes.

Modules: `Seqs` (filter, subsequence, positional updates), `Text` (ASCII
whitespace, `trim`, `split`/`join`, decimal numerals), `Refs`, `BrandSlug`,
`Pagination`, `ProductManagement`, `SubCategoryManagement`, `Home`,
`ProductForm`.

## Model

| member | source | states |
|---|---|---|
| `BrandSlug.LowerCase` | product-api/models/Brand.js:6 | ASCII `toLowerCase`: same length, no upper-case letter left, each `A`-`Z` moved to its lower-case letter and every other character kept |
| `BrandSlug.StripSpecial` | product-api/models/Brand.js:7 | the result is an order-preserving subsequence of the input made only of `a-z`, `0-9`, space and `-`, and every such character of the input appears in it |
| `BrandSlug.HyphenateWhitespace` | product-api/models/Brand.js:8 | no whitespace is left; the first and last characters map to `-` exactly when they were whitespace |
| `BrandSlug.HyphenateWhitespaceIsSubsequence` | product-api/models/Brand.js:8 | the result only deletes characters from the input with each whitespace character turned into `-`: nothing is added or reordered |
| `BrandSlug.HyphenateWhitespaceRun` | product-api/models/Brand.js:8 | within a run of whitespace one character more or less gives the same result, so only the run's presence matters, not its length |
| `BrandSlug.HyphenateIsolatedWhitespace` | product-api/models/Brand.js:8 | in text without two adjacent whitespace characters, every whitespace character, inner or at an edge, becomes `-` and nothing else changes; with the run lemma, every run of whitespace becomes a single `-` |
| `BrandSlug.CollapseHyphens` | product-api/models/Brand.js:9 | the result has no two adjacent hyphens and keeps the input's first and last character |
| `BrandSlug.CollapseHyphensIsSubsequence` | product-api/models/Brand.js:9 | the collapse only deletes characters of the input: nothing is added or reordered |
| `BrandSlug.CollapseHyphensRun` | product-api/models/Brand.js:9 | within a run of hyphens one hyphen more or less gives the same result, so each run becomes a single `-` |
| `BrandSlug.Replaced` | product-api/models/Brand.js:5-9 | after the three replacements the text holds only `a-z`, `0-9` and single hyphens |
| `BrandSlug.GenerateSlug` | product-api/models/Brand.js:4-11 | the slug holds only `a-z`, `0-9` and `-`, never two hyphens in a row, and the final `trim('-')` changes nothing (it trims whitespace, which is gone) |
| `BrandSlug.HyphenateWhitespaceFixes` | product-api/models/Brand.js:8 | text without whitespace passes the whitespace replacement unchanged |
| `BrandSlug.CollapseHyphensFixes` | product-api/models/Brand.js:9 | text without a double hyphen passes the hyphen collapse unchanged |
| `BrandSlug.GenerateSlugFixesSlugs` | product-api/models/Brand.js:4-11 | a well-formed slug is its own slug |
| `BrandSlug.GenerateSlugIdempotent` | product-api/models/Brand.js:4-11 | generating a slug from a slug changes nothing |
| `BrandSlug.StripSpecialKeepsEdges` | product-api/models/Brand.js:7 | a kept first or last character survives the special-character removal at the same end |
| `BrandSlug.GenerateSlugKeepsEdgeHyphens` | product-api/models/Brand.js:8-10 | a name starting or ending with a space gives a slug starting or ending with `-`: the leading and trailing hyphens are not removed |
| `BrandSlug.GenerateSlugEmptyWithoutKeptChars` | product-api/models/Brand.js:6-7 | a name none of whose lower-cased characters is `a-z`, `0-9`, space or `-` (such as `!!!`) gives the empty slug |
| `BrandSlug.GenerateCleanSlugEmptyWithoutAlphanumerics` | product-api/models/Brand.js:4-11 | even the corrected generator gives the empty base for a name with no letter or digit, and its first numbered candidate is then `-1` |
| `BrandSlug.GenerateSlugKeepsAlphanumerics` | product-api/models/Brand.js:5-10 | the slug's letters and digits are exactly those of the lower-cased name, in order |
| `BrandSlug.HyphenateWhitespaceKeepsAlphanumerics` | product-api/models/Brand.js:8 | the whitespace replacement keeps the letters and digits in order |
| `BrandSlug.CollapseHyphensKeepsAlphanumerics` | product-api/models/Brand.js:9 | the hyphen collapse keeps the letters and digits in order |
| `BrandSlug.TrimHyphens` | product-api/models/Brand.js:10 | the hyphen trim the comment on line 10 describes leaves no hyphen at either end and never lengthens the slug |
| `BrandSlug.TrimHyphensRemovesOnlyEdgeHyphens` | product-api/models/Brand.js:10 | that trim removes hyphens only, and only at the two ends: the input is the result with a run of hyphens on either side |
| `BrandSlug.TrimHyphensKeepsSlug` | product-api/models/Brand.js:10 | removing the edge hyphens of a slug leaves a slug |
| `BrandSlug.GenerateCleanSlug` | product-api/models/Brand.js:4-11 | the corrected generator gives a well-formed slug with no hyphen at either end |
| `BrandSlug.GenerateCleanSlugTrimsGenerateSlug` | product-api/models/Brand.js:10 | the corrected slug is the as-written slug with its edge hyphens removed |
| `BrandSlug.GenerateCleanSlugIdempotent` | product-api/models/Brand.js:4-11 | the corrected generator is idempotent |
| `BrandSlug.CandidateIsSlug` | product-api/models/Brand.js:37 | `base-k` is a well-formed slug when `base` is one and does not end in `-` |
| `BrandSlug.GenerateSlugCandidateDoubleHyphen` | product-api/models/Brand.js:10 | as written, a name ending in a space makes the hook's first numbered candidate contain `--` |
| `BrandSlug.CleanSlugCandidatesAreSlugs` | product-api/models/Brand.js:31-39 | with the corrected base, every candidate the hook can try is a well-formed slug |
| `BrandSlug.Candidate` | product-api/models/Brand.js:37 | the slug tried after `k` taken ones: the base for `k = 0`, else `${baseSlug}-${counter}` with `counter = k` (its parts are stated by `CandidateParts`) |
| `BrandSlug.CandidateParts` | product-api/models/Brand.js:37 | candidate `k > 0` is the base, a `-`, and a string of digits that reads back as `k` |
| `BrandSlug.CandidateInjective` | product-api/models/Brand.js:36-39 | the probe never tries the same slug twice |
| `BrandSlug.FirstFreeCandidateUnique` | product-api/models/Brand.js:31-41 | the slug the hook picks is determined by the base slug and the set of taken slugs |
| `BrandSlug.UniqueSlug` | product-api/models/Brand.js:31-39 | the loop ends with the first candidate not taken: `base` when it is free, otherwise `base-k` for the least such `k`; every earlier candidate is taken; it meets at most as many taken slugs as there are |
| `BrandSlug.BrandDocument.constructor` | product-api/models/Brand.js:13-26 | a brand document holds the given name and slug |
| `BrandSlug.BrandDocument.NeedsSlug` | product-api/models/Brand.js:30 | `!this.slug && this.name`: the hook acts only when the slug is absent or empty and the name is non-empty |
| `BrandSlug.BrandDocument.PreSave` | product-api/models/Brand.js:29-44 | with the slug absent or empty and the name non-empty, the hook assigns the first free candidate of the base slug, which no other brand holds and which is well-formed; otherwise the slug is left as it was |
| `Pagination.ResolveIndex` | frontend/src/components/admin/ProductManagement.jsx:244 | `slice` clamps a non-negative index to the list length |
| `Pagination.Slice` | frontend/src/components/admin/ProductManagement.jsx:244 | `slice` never lengthens the list, and for `0 <= start <= end` it is the window between the two indices clamped to the length |
| `Pagination.PageOf` | frontend/src/components/admin/ProductManagement.jsx:242-244 | the current page holds at most five items, whatever the page number (its window is stated by `PageWindow`) |
| `Pagination.TotalPages` | frontend/src/components/admin/ProductManagement.jsx:245 | `Math.ceil(n / 5)`: the least page count whose pages hold all `n` items |
| `Pagination.PageWindow` | frontend/src/components/admin/ProductManagement.jsx:242-244 | page `p >= 1` is `items[(p-1)*5 .. min(p*5, n))`, at most five items |
| `Pagination.PagesUpToIsPrefix` | frontend/src/components/admin/ProductManagement.jsx:242-244 | pages 1 to `k` together are the first `min(5k, n)` items |
| `Pagination.PagesCoverList` | frontend/src/components/admin/ProductManagement.jsx:242-245 | pages 1 to `totalPages` concatenate to the whole list |
| `Pagination.PageInRangeIsNonEmpty` | frontend/src/components/admin/ProductManagement.jsx:540-548 | every numbered page button shows at least one item |
| `Pagination.PageBeyondLastIsEmpty` | frontend/src/components/admin/SubCategoryManagement.jsx:111-114 | a page past `totalPages` is empty |
| `Pagination.ControlsShownIffSeveralPages` | frontend/src/components/admin/SubCategoryManagement.jsx:263 | the pagination bar appears exactly when there are at least two pages |
| `Pagination.Click` | frontend/src/components/admin/SubCategoryManagement.jsx:265-296 | Previous moves back one page unless it is disabled on page 1, Next moves on one page unless it is disabled on the last page, a number button goes to its page |
| `Pagination.ClickStaysInRange` | frontend/src/components/admin/SubCategoryManagement.jsx:263-296 | from a page in range, Previous (disabled on page 1), Next (disabled on the last page) and the number buttons all land on a page in range |
| `Pagination.NextBeyondLastMovesAway` | frontend/src/components/admin/SubCategoryManagement.jsx:290-296 | a current page left beyond the last one keeps Next enabled, and Next leads to a further empty page |
| `ProductManagement.BelongsTo` | frontend/src/components/admin/ProductManagement.jsx:73-74 | a brand belongs to a subcategory exactly when its subcategory reference, bare or populated, has that id |
| `ProductManagement.FilterBrandsBySubCategory` | frontend/src/components/admin/ProductManagement.jsx:67-77 | no subcategory gives no brands; otherwise the brands kept are, in order, exactly those whose subcategory is that id as a bare id or a populated `_id` |
| `ProductManagement.FilterBrandsKeepsMultiplicity` | frontend/src/components/admin/ProductManagement.jsx:72-75 | each matching brand is offered as many times as it is listed, and no other brand is offered |
| `ProductManagement.HandleInputChange` | frontend/src/components/admin/ProductManagement.jsx:180-198 | a subcategory change sets it, clears the brand and recomputes the brand choices; a name, price, brand or description change sets exactly that field to the typed value and leaves the other fields and the choices alone; the checkbox sets only `inStock` |
| `ProductManagement.HandleInputChangeKeepsBrandConsistent` | frontend/src/components/admin/ProductManagement.jsx:180-198 | whatever is typed or chosen, the brand choices stay those of the selected subcategory and the selected brand stays empty or one of them |
| `ProductManagement.AddVariant` | frontend/src/components/admin/ProductManagement.jsx:200-202 | appends `{name: '', values: ['']}` and keeps every existing variant |
| `ProductManagement.RemoveVariant` | frontend/src/components/admin/ProductManagement.jsx:204-206 | removes exactly position `i`; the length drops by one exactly when `i` is in range, and otherwise nothing changes |
| `ProductManagement.UpdateVariantName` | frontend/src/components/admin/ProductManagement.jsx:208-212 | only the addressed variant's name changes |
| `ProductManagement.AddVariantValue` | frontend/src/components/admin/ProductManagement.jsx:214-220 | only variant `i` changes, gaining a trailing `''` value |
| `ProductManagement.RemoveVariantValue` | frontend/src/components/admin/ProductManagement.jsx:222-228 | only variant `i`'s values change, losing position `j` when it exists |
| `ProductManagement.UpdateVariantValue` | frontend/src/components/admin/ProductManagement.jsx:230-239 | only the addressed value slot changes; lengths and every other entry stay |
| `ProductManagement.RemoveUndoesAddVariant` | frontend/src/components/admin/ProductManagement.jsx:200-206 | removing the variant just added restores the list |
| `ProductManagement.RemoveUndoesAddVariantValue` | frontend/src/components/admin/ProductManagement.jsx:214-228 | removing the value just added restores the list |
| `ProductManagement.UpdateVariantValueLastWins` | frontend/src/components/admin/ProductManagement.jsx:230-239 | of two edits of one value slot, the second wins |
| `ProductManagement.UpdateVariantValueWithSameValue` | frontend/src/components/admin/ProductManagement.jsx:230-239 | writing a slot's own value back changes nothing |
| `SubCategoryManagement.ActiveCategories` | frontend/src/components/admin/SubCategoryManagement.jsx:44 | the category choices are exactly the active categories, in server order, each as often as listed |
| `SubCategoryManagement.InitialEditor` | frontend/src/components/admin/SubCategoryManagement.jsx:8-17 | the form starts empty with `isActive` true, nothing being edited, closed, with no error |
| `SubCategoryManagement.HandleEdit` | frontend/src/components/admin/SubCategoryManagement.jsx:69-78 | the form gets the name, the category id (populated `_id` or bare id), the description or `''`, and `isActive`, and opens; a null category throws after only `editing` was set |
| `SubCategoryManagement.ResetForm` | frontend/src/components/admin/SubCategoryManagement.jsx:95-100 | the form state returns to the initial one |
| `SubCategoryManagement.EditThenSaveRoundTrip` | frontend/src/components/admin/SubCategoryManagement.jsx:69-78 | opening a subcategory and saving the form unchanged gives it back, with a bare category id and `''` for a missing description |
| `SubCategoryManagement.HandleEditForgetsPreviousForm` | frontend/src/components/admin/SubCategoryManagement.jsx:71-76 | the opened form depends only on the subcategory, not on what was open before |
| `SubCategoryManagement.ResetAfterEditIsInitial` | frontend/src/components/admin/SubCategoryManagement.jsx:95-100 | cancelling an edit brings the editor back to its initial state |
| `Home.MatchedSubCatIds` | frontend/src/pages/Home.jsx:40-42 | the ids listed are exactly those of subcategories whose category matches, and none when no subcategory matches |
| `Home.Pipeline` | frontend/src/pages/Home.jsx:28-47 | the effect's three `.filter` passes, each applied only when its filter is set, for a given category comparison: `CategoryMatchesAsWritten` is line 41 as written, `CategoryMatches` the corrected one (its promises are in `PipelineKeepsExactly`) |
| `Home.PipelineIsOneFilter` | frontend/src/pages/Home.jsx:28-49 | for either category comparison, the three filters in sequence are one filter by the conjunction of the active tests |
| `Home.PipelineKeepsExactly` | frontend/src/pages/Home.jsx:27-50 | for either category comparison, as written too: with no filter set every product is shown, the result is an order-preserving subsequence of all products, and it holds exactly the products every active filter keeps |
| `Home.FilterProducts` | frontend/src/pages/Home.jsx:27-50 | the effect with line 41 corrected to compare `sc.category._id || sc.category` (see Findings): with no filter set, every product is shown; the result is an order-preserving subsequence of all products holding exactly the products every active filter keeps; a brand or subcategory filter keeps only products whose populated `_id` equals it |
| `Home.CategoryFilterKeepsExactly` | frontend/src/pages/Home.jsx:38-46 | with only a category set, a product is shown exactly when its subcategory id (populated `_id` or bare) is that of a subcategory of the category |
| `Home.FilterOrderIrrelevant` | frontend/src/pages/Home.jsx:28-49 | filtering by category, then subcategory, then brand gives the same list |
| `Home.CategoryFilterAsWrittenDropsEverything` | frontend/src/pages/Home.jsx:41 | as written, with subcategories served with populated or null categories (as the route serves them), any category filter shows no products |
| `Home.CategoryFilterCounterexample` | frontend/src/pages/Home.jsx:38-46 | one product in subcategory `s1` of category `c1`: as written, filtering by `c1` hides it; corrected, it is shown |
| `Home.HandleFilterChange` | frontend/src/pages/Home.jsx:53-59 | exactly the named filter takes the new value; the other two stay |
| `Home.ChoosingAllEverywhereShowsEverything` | frontend/src/pages/Home.jsx:53-59 | choosing "All" in the three selects shows every product again |
| `ProductForm.VariantRow.constructor` | frontend/src/components/ProductForm.jsx:46 | a new row holds the given name and values text |
| `ProductForm.Contents` | frontend/src/components/ProductForm.jsx:95-108 | the rows' current name and values text, position by position |
| `ProductForm.DefaultForm` | frontend/src/components/ProductForm.jsx:57-65 | the reset form: empty strings, `inStock` true, no variants |
| `ProductForm.AddVariant` | frontend/src/components/ProductForm.jsx:43-48 | appends a fresh row `{name: '', values: ''}`; the existing rows, their contents and the other fields stay, and the rows stay distinct objects |
| `ProductForm.HandleVariantChange` | frontend/src/components/ProductForm.jsx:37-41 | the new form is the old one as a value (the spread copy holds the same rows); the addressed row's named field is written in place, every other row keeps its contents, and with distinct rows the contents change at that position only |
| `ProductForm.ParseValues` | frontend/src/components/ProductForm.jsx:54 | the values text becomes (number of commas + 1) pieces, each the trimmed piece between commas, none with surrounding whitespace |
| `ProductForm.ParseValuesJoin` | frontend/src/components/ProductForm.jsx:54 | when no piece has surrounding whitespace, joining the parsed values with `,` gives the text back |
| `ProductForm.ParseJoinedValues` | frontend/src/components/ProductForm.jsx:54 | values without commas or surrounding whitespace, joined with `,`, parse back to themselves |
| `ProductForm.ParseValuesStable` | frontend/src/components/ProductForm.jsx:54 | trimming a parsed value again changes nothing |
| `ProductForm.HandleSubmit` | frontend/src/components/ProductForm.jsx:50-66 | the submitted object copies every field and keeps the variants' count, order and names, with each row's values parsed; the form is reset to its defaults |
| `Text.Trim` | frontend/src/components/ProductForm.jsx:54 | `trim` leaves no whitespace at either end and never lengthens the text |
| `Text.TrimRemovesOnlySurroundingWhitespace` | frontend/src/components/ProductForm.jsx:54 | `trim` removes whitespace only, and only at the two ends |
| `Text.TrimFixesExactlyUntrimmed` | frontend/src/components/ProductForm.jsx:54 | `trim` leaves text unchanged exactly when it has no surrounding whitespace |
| `Text.TrimIdempotent` | frontend/src/components/ProductForm.jsx:54 | trimming twice is trimming once |
| `Text.Split` | frontend/src/components/ProductForm.jsx:54 | `split(',')` gives one more piece than there are commas, none containing a comma |
| `Text.JoinSplit` | frontend/src/components/ProductForm.jsx:54 | joining the pieces of a split with the separator gives the text back |
| `Text.SplitJoin` | frontend/src/components/ProductForm.jsx:54 | splitting separator-free pieces joined with the separator gives the pieces back |
| `Text.ParseNatToString` | product-api/models/Brand.js:37 | the decimal numeral of the probe counter reads back as the counter |
| `Text.NatToStringInjective` | product-api/models/Brand.js:37 | different counters give different numerals |
| `Refs.PopulatedId` | frontend/src/pages/Home.jsx:31 | `r?._id` is present exactly for a populated reference |
| `Refs.IdOf` | frontend/src/pages/Home.jsx:45 | `r?._id`, or else `r` itself, is the referenced id for a bare or populated reference and absent for a missing one |
| `Seqs.Filter` | frontend/src/pages/Home.jsx:31 | `filter` keeps exactly the elements that pass the test |
| `Seqs.FilterIsSubsequence` | frontend/src/pages/Home.jsx:31 | `filter` keeps the order of what it keeps |
| `Seqs.FilterFuse` | frontend/src/pages/Home.jsx:28-47 | two successive filters are one filter by both tests |
| `Seqs.FilterSameTest` | frontend/src/pages/Home.jsx:28-47 | two tests that agree on every element give the same filter |
| `Seqs.RemoveAt` | frontend/src/components/admin/ProductManagement.jsx:205 | `filter((_, i) => i !== k)` drops position `k` when it exists and is the identity otherwise |
| `Seqs.MapAt` | frontend/src/components/admin/ProductManagement.jsx:209-211 | `map((v, i) => i === k ? f(v) : v)` changes position `k` only |

## Left out

- Express routes, `server.js` and the Mongoose schemas are not modelled. They are thin wrappers over the database library: its `save`, `find`, `findByIdAndUpdate` and `populate`. Their only effect here is the shape in which references arrive, which `Refs.Ref` captures.
- The unique index on `slug` and concurrent saves racing through the `findOne` probe are not modelled. The hook sees one snapshot set of taken slugs.
- `BrandSlug.BrandDocument.PreSave` uses the corrected base slug (see Findings). The as-written base is `BrandSlug.GenerateSlug`, and the loop `BrandSlug.UniqueSlug` is the same for both.
- `BrandSlug.GenerateCleanSlug`: "well-formed" means `IsSlug` (lower-case letters, digits, no double hyphen) and no hyphen at either end of the base. A name with no letter or digit gives the empty base, so the candidate `-1` still starts with a hyphen (`BrandSlug.GenerateCleanSlugEmptyWithoutAlphanumerics`). What the authors intended for such names is not evident, so the model does not correct it.
- `Home.FilterProducts` compares `sc.category._id || sc.category` on line 41 instead of `sc.category` (see Findings). The as-written effect is `Home.Pipeline` with `Home.CategoryMatchesAsWritten`, and `Home.PipelineKeepsExactly` covers both.
- The database maintenance script `cleanup-brands.js` is not modelled. It exits the process.
- JSX rendering, axios requests, `window.confirm`, data fetching in effects and routing are not modelled. They are I/O and UI glue.
- The other form and page components are not part of this model, nor are the admin category and brand screens.
- `toLowerCase`, `\s` and `trim` are modelled on ASCII only. Whitespace is space, tab, line feed, carriage return, vertical tab and form feed. Unicode case mapping and Unicode spaces are not modelled.
- `ProductManagement.UpdateVariantName`: `updateVariant` takes any field name, but the editor only ever passes `'name'`, so only that field is modelled.
- The product editor's `handleEdit`, `resetForm`, `handleSubmit` (with `parseFloat` on the price) and the subcategory editor's `handleInputChange` and `handleSubmit` are not modelled. They are record copies feeding axios calls.
- `Pagination.TotalPages` uses integer ceiling division instead of `Math.ceil` on a floating-point quotient. The two agree for every list length.
- In `Home`, `GET /products` populates only `subCategory`, and the product schema has no `brand` field. The brand filter therefore keeps nothing in practice. The model keeps the brand reference general and does not claim this.
- Stored variants whose `values` is already an array (the edit path into `ProductForm`, where `.split` would throw) are not modelled. A row's `values` is always the typed text.
- `ProductForm.HandleVariantChange` requires an index in range. The form only calls it with the index of a rendered row, and an index out of range would throw a TypeError.

## Findings

| source | as written | input that shows it | evidently intended | confidence | as-written member | corrected member |
|---|---|---|---|---|---|---|
| frontend/src/pages/Home.jsx:41 | `sc.category === filters.category` compares the populated category document served by `GET /subcategories` with an id string | subcategory `s1` served with category `{_id: 'c1'}`, a product in `s1`, category filter `c1`: the product is hidden, and so is every other product | compare the category's id (its `_id` when populated, else the bare id) with the filter, as line 45 already does for the product's subcategory | not executed; the route at product-api/server.js:55 populates `category` | `Home.CategoryFilterAsWrittenDropsEverything` | `Home.FilterProducts` |
| product-api/models/Brand.js:10 | `.trim('-')` is the whitespace `trim`, which ignores its argument, so leading and trailing hyphens stay | the name `"Acme "` gives `"acme-"`; if that slug is taken, the next candidate is `"acme--1"`, with a double hyphen | remove leading and trailing hyphens, as the comment says, so every candidate is a well-formed slug | not executed | `BrandSlug.GenerateSlugCandidateDoubleHyphen` | `BrandSlug.CleanSlugCandidatesAreSlugs` |
