/**
 * The simple product form (frontend/src/components/ProductForm.jsx). Each
 * variant row is an object the form's `variants` array points to; editing a
 * row writes into that object, so every array that shares it sees the edit.
 * Submitting turns each row's comma-separated `values` text into a list of
 * trimmed values and empties the form.
 */
module ProductForm {
  import opened Seqs
  import opened Text

  /** A variant row as the form edits it: `values` is the text typed in, not yet split. */
  class VariantRow {
    var name: string
    var values: string

    constructor(name: string, values: string)
      ensures this.name == name && this.values == values
    {
      this.name := name;
      this.values := values;
    }
  }

  /** A row's field as `handleVariantChange` is called with it. */
  datatype VariantKey = NameKey | ValuesKey

  /** The form state; `variants` holds references to rows, as the JavaScript array holds objects. */
  datatype FormData = FormData(
    name: string, subCategory: string, brand: string, price: string, description: string,
    inStock: bool, variants: seq<VariantRow>)

  /** The contents of a row at one moment. */
  datatype RowContents = RowContents(name: string, values: string)

  /** What the rows hold now, in order. */
  function Contents(rows: seq<VariantRow>): (r: seq<RowContents>)
    reads rows
    ensures |r| == |rows|
    ensures forall i :: 0 <= i < |rows| ==> r[i] == RowContents(rows[i].name, rows[i].values)
  {
    seq(|rows|, i reads rows requires 0 <= i < |rows| => RowContents(rows[i].name, rows[i].values))
  }

  /** No row object appears twice in the list. */
  predicate DistinctRows(rows: seq<VariantRow>)
  {
    forall i, j :: 0 <= i < j < |rows| ==> rows[i] != rows[j]
  }

  /** The empty form of lines 5 to 13, which `handleSubmit` restores. */
  function DefaultForm(): (f: FormData)
    ensures f.name == "" && f.subCategory == "" && f.brand == "" && f.price == "" && f.description == ""
    ensures f.inStock && f.variants == []
  {
    FormData("", "", "", "", "", true, [])
  }

  /**
   * `addVariant`: appends a fresh row `{name: '', values: ''}`. The existing
   * rows, their contents and the other fields stay as they were, and the rows
   * stay distinct objects.
   */
  method AddVariant(form: FormData) returns (r: FormData)
    ensures r == form.(variants := r.variants)
    ensures |r.variants| == |form.variants| + 1 && r.variants[..|form.variants|] == form.variants
    ensures fresh(r.variants[|form.variants|])
    ensures Contents(r.variants) == Contents(form.variants) + [RowContents("", "")]
    ensures DistinctRows(form.variants) ==> DistinctRows(r.variants)
  {
    var row := new VariantRow("", "");
    r := form.(variants := form.variants + [row]);
    assert Contents(r.variants) == Contents(form.variants) + [RowContents("", "")];
  }

  /**
   * `handleVariantChange(index, key, value)`. The spread copy of the array
   * holds the same row objects, so the new form equals the old one as a
   * value and the write lands in the shared row: every position holding
   * that row shows the new field, and nothing else changes.
   */
  method HandleVariantChange(form: FormData, index: int, key: VariantKey, value: string) returns (r: FormData)
    requires 0 <= index < |form.variants|
    modifies form.variants[index]
    ensures r == form
    ensures var row := form.variants[index];
      key == NameKey ==> row.name == value && row.values == old(row.values)
    ensures var row := form.variants[index];
      key == ValuesKey ==> row.values == value && row.name == old(row.name)
    ensures forall j :: 0 <= j < |form.variants| && form.variants[j] != form.variants[index] ==>
      Contents(form.variants)[j] == old(Contents(form.variants))[j]
    ensures DistinctRows(form.variants) ==>
      Contents(form.variants) == MapAt(old(Contents(form.variants)), index,
        (c: RowContents) => if key == NameKey then c.(name := value) else c.(values := value))
  {
    var newVariants := form.variants[..];
    var row := newVariants[index];
    if key == NameKey {
      row.name := value;
    } else {
      row.values := value;
    }
    r := form.(variants := newVariants);
  }

  /** `v.values.split(',').map(val => val.trim())`. */
  function ParseValues(text: string): (values: seq<string>)
    ensures |values| == multiset(text)[','] + 1
    ensures forall i :: 0 <= i < |values| ==> HasNoSurroundingWhitespace(values[i])
    ensures forall i :: 0 <= i < |values| ==> values[i] == Trim(Split(text, ',')[i])
  {
    var pieces := Split(text, ',');
    seq(|pieces|, i requires 0 <= i < |pieces| => Trim(pieces[i]))
  }

  /** When no comma-separated piece has surrounding whitespace, joining the parsed values with `','` gives the text back. */
  lemma ParseValuesJoin(text: string)
    requires forall i :: 0 <= i < |Split(text, ',')| ==> HasNoSurroundingWhitespace(Split(text, ',')[i])
    ensures Join(ParseValues(text), ',') == text
  {
    var pieces := Split(text, ',');
    forall i | 0 <= i < |pieces|
      ensures ParseValues(text)[i] == pieces[i]
    {
      TrimFixesExactlyUntrimmed(pieces[i]);
    }
    assert ParseValues(text) == pieces;
    JoinSplit(text, ',');
  }

  /** Values typed without commas or surrounding whitespace, joined with `','`, parse back to themselves. */
  lemma ParseJoinedValues(values: seq<string>)
    requires |values| >= 1
    requires forall i :: 0 <= i < |values| ==> ',' !in values[i] && HasNoSurroundingWhitespace(values[i])
    ensures ParseValues(Join(values, ',')) == values
  {
    SplitJoin(values, ',');
    forall i | 0 <= i < |values|
      ensures ParseValues(Join(values, ','))[i] == values[i]
    {
      TrimFixesExactlyUntrimmed(values[i]);
    }
  }

  /** Trimming a parsed value again changes nothing. */
  lemma ParseValuesStable(text: string)
    ensures forall i :: 0 <= i < |ParseValues(text)| ==> Trim(ParseValues(text)[i]) == ParseValues(text)[i]
  {
    forall i | 0 <= i < |ParseValues(text)|
      ensures Trim(ParseValues(text)[i]) == ParseValues(text)[i]
    {
      TrimIdempotent(Split(text, ',')[i]);
    }
  }

  /** A variant as it is submitted: its values split and trimmed. */
  datatype SubmittedVariant = SubmittedVariant(name: string, values: seq<string>)

  /** The object passed to `onSubmit`: the form's fields with `variants` formatted. */
  datatype Payload = Payload(
    name: string, subCategory: string, brand: string, price: string, description: string,
    inStock: bool, variants: seq<SubmittedVariant>)

  /** What `handleSubmit` produces: the payload for `onSubmit` and the form it leaves behind. */
  datatype Submission = Submission(payload: Payload, next: FormData)

  /** `handleSubmit`: format every row, hand the result over, reset the form. */
  function HandleSubmit(form: FormData): (r: Submission)
    reads form.variants
    ensures r.payload.name == form.name && r.payload.subCategory == form.subCategory && r.payload.brand == form.brand
    ensures r.payload.price == form.price && r.payload.description == form.description && r.payload.inStock == form.inStock
    ensures |r.payload.variants| == |form.variants|
    ensures forall i :: 0 <= i < |form.variants| ==>
      r.payload.variants[i] == SubmittedVariant(form.variants[i].name, ParseValues(form.variants[i].values)) &&
      |r.payload.variants[i].values| == multiset(form.variants[i].values)[','] + 1 &&
      (forall k :: 0 <= k < |r.payload.variants[i].values| ==> HasNoSurroundingWhitespace(r.payload.variants[i].values[k]))
    ensures r.next == DefaultForm()
  {
    var rows := form.variants;
    var formatted := seq(|rows|, i reads rows requires 0 <= i < |rows| => SubmittedVariant(rows[i].name, ParseValues(rows[i].values)));
    Submission(
      Payload(form.name, form.subCategory, form.brand, form.price, form.description, form.inStock, formatted),
      DefaultForm())
  }
}
