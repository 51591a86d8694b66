/** The state handlers of the recipe-creation page: the ingredient list the user edits,
    the photo picker's checks, the form validation and the ingredient filter of the
    submitted payload. React's state updates are modelled as functions from the old state
    to the new one; the in-place edit of one entry as a method over an array. */
module CreateRecipeForm {
  import opened Wrappers
  import Text
  import Query

  /** One row of the ingredient editor: every input holds text. */
  datatype IngredientEntry = IngredientEntry(name: string, quantity: string, unit: string)

  /** The row the form starts with and the "+ Add Ingredient" button appends. */
  const BlankEntry := IngredientEntry("", "", "cup")

  /** The three inputs of an ingredient row, the `field` argument of the change handler. */
  datatype EntryField = Name | Quantity | Unit

  /** The form's state besides the photo. The numeric fields stay text until the server
      reads them. */
  datatype RecipeForm = RecipeForm(
    title: string, description: string,
    servings: string, prepTime: string, cookTime: string,
    difficulty: string, category: string,
    isPublic: bool,
    ingredients: seq<IngredientEntry>)

  const InitialForm := RecipeForm("", "", "4", "15", "30", "medium", "other", true, [BlankEntry])

  // ------------------------------------------------------------ ingredient list

  function FieldOf(e: IngredientEntry, f: EntryField): string {
    match f
    case Name => e.name
    case Quantity => e.quantity
    case Unit => e.unit
  }

  /** `entry[field] = value`: the named input takes the value, the other two keep theirs. */
  function WithField(e: IngredientEntry, f: EntryField, value: string): (r: IngredientEntry)
    ensures forall g :: FieldOf(r, g) == if g == f then value else FieldOf(e, g)
  {
    match f
    case Name => e.(name := value)
    case Quantity => e.(quantity := value)
    case Unit => e.(unit := value)
  }

  /** `handleAddIngredient`: a blank row at the end, the existing rows untouched. */
  function AddIngredient(list: seq<IngredientEntry>): (r: seq<IngredientEntry>)
    ensures |r| == |list| + 1
    ensures r[..|list|] == list && r[|list|] == BlankEntry
  {
    list + [BlankEntry]
  }

  /** `handleRemoveIngredient(index)`: the rows whose position differs from `index`, in
      their order. An index that names no row removes nothing. */
  function RemoveIngredient(list: seq<IngredientEntry>, index: int): (r: seq<IngredientEntry>)
    ensures 0 <= index < |list| ==> r == list[..index] + list[index + 1..]
    ensures !(0 <= index < |list|) ==> r == list
  {
    if list == [] then []
    else if index == 0 then list[1..]
    else
      var rest := RemoveIngredient(list[1..], index - 1);
      assert 0 <= index < |list| ==> list[1..][..index - 1] + list[1..][index..] == list[1..index] + list[index + 1..];
      assert 0 <= index < |list| ==> [list[0]] + list[1..index] == list[..index];
      [list[0]] + rest
  }

  /** `handleIngredientChange(index, field, value)`: the list is copied, and the copy's
      row at `index` has its `field` overwritten. Every other row, and the other two
      inputs of that row, are unchanged. */
  method ChangeIngredient(list: seq<IngredientEntry>, index: int, field: EntryField, value: string)
    returns (updated: seq<IngredientEntry>)
    requires 0 <= index < |list|
    ensures |updated| == |list|
    ensures forall i :: 0 <= i < |list| && i != index ==> updated[i] == list[i]
    ensures forall g :: FieldOf(updated[index], g) == if g == field then value else FieldOf(list[index], g)
  {
    var copy := new IngredientEntry[|list|](i requires 0 <= i < |list| => list[i]);
    copy[index] := WithField(copy[index], field, value);
    updated := copy[..];
  }

  /** What the user can do to the ingredient list. */
  datatype IngredientAction = Add | Remove(index: int) | Change(index: int, field: EntryField, value: string)

  /** The control for the action is on the page: a change input exists for every row,
      and the remove button only while there is more than one row. */
  predicate Offered(list: seq<IngredientEntry>, a: IngredientAction) {
    match a
    case Add => true
    case Remove(i) => |list| > 1 && 0 <= i < |list|
    case Change(i, _, _) => 0 <= i < |list|
  }

  /** The list after the action, as the handlers above leave it. */
  function Apply(list: seq<IngredientEntry>, a: IngredientAction): seq<IngredientEntry>
    requires Offered(list, a)
  {
    match a
    case Add => AddIngredient(list)
    case Remove(i) => RemoveIngredient(list, i)
    case Change(i, f, v) => list[i := WithField(list[i], f, v)]
  }

  /** Every action of the sequence is offered on the page it is taken from. */
  predicate AllOffered(list: seq<IngredientEntry>, actions: seq<IngredientAction>)
    decreases |actions|
  {
    actions == [] || (Offered(list, actions[0]) && AllOffered(Apply(list, actions[0]), actions[1..]))
  }

  function Run(list: seq<IngredientEntry>, actions: seq<IngredientAction>): seq<IngredientEntry>
    requires AllOffered(list, actions)
    decreases |actions|
  {
    if actions == [] then list else Run(Apply(list, actions[0]), actions[1..])
  }

  /** Whatever the user clicks, the editor never loses its last row: starting from a
      non-empty list, the list stays non-empty. */
  lemma {:induction false} EditingKeepsARow(list: seq<IngredientEntry>, actions: seq<IngredientAction>)
    requires |list| >= 1 && AllOffered(list, actions)
    ensures |Run(list, actions)| >= 1
    decreases |actions|
  {
    if actions != [] {
      var next := Apply(list, actions[0]);
      assert |next| >= 1;
      EditingKeepsARow(next, actions[1..]);
    }
  }

  /** In particular from the form's first state. */
  lemma FormAlwaysHasARow(actions: seq<IngredientAction>)
    requires AllOffered(InitialForm.ingredients, actions)
    ensures |Run(InitialForm.ingredients, actions)| >= 1
  {
    EditingKeepsARow(InitialForm.ingredients, actions);
  }

  /** The method and the state update used for the page agree. */
  lemma ChangeIsPointwise(list: seq<IngredientEntry>, index: int, field: EntryField, value: string,
                          updated: seq<IngredientEntry>)
    requires 0 <= index < |list| && |updated| == |list|
    requires forall i :: 0 <= i < |list| && i != index ==> updated[i] == list[i]
    requires forall g :: FieldOf(updated[index], g) == if g == field then value else FieldOf(list[index], g)
    ensures updated == Apply(list, Change(index, field, value))
  {
    var e := updated[index];
    var w := WithField(list[index], field, value);
    assert FieldOf(e, Name) == FieldOf(w, Name);
    assert FieldOf(e, Quantity) == FieldOf(w, Quantity);
    assert FieldOf(e, Unit) == FieldOf(w, Unit);
  }

  // ------------------------------------------------------------ submitted payload

  predicate Named(e: IngredientEntry) {
    !Text.IsBlank(e.name)
  }

  /** `ingredients.filter(ing => ing.name.trim())`: the rows with a name that is not
      white space only. */
  function SubmittedIngredients(list: seq<IngredientEntry>): (r: seq<IngredientEntry>)
    ensures forall i :: 0 <= i < |r| ==> r[i] in list && Named(r[i])
    ensures forall i :: 0 <= i < |list| && Named(list[i]) ==> list[i] in r
  {
    Query.Filter(list, Named)
  }

  /** The payload is empty exactly when every row's name is blank. */
  lemma NoneSubmittedIffAllBlank(list: seq<IngredientEntry>)
    ensures SubmittedIngredients(list) == [] <==> forall i :: 0 <= i < |list| ==> Text.IsBlank(list[i].name)
  {
    if forall i :: 0 <= i < |list| ==> Text.IsBlank(list[i].name) {
      Query.FilterNone(list, Named);
    }
  }

  /** The filter keeps the rows' order: the payload of two runs of rows is the payload of
      the first followed by that of the second. */
  lemma SubmittedKeepsOrder(a: seq<IngredientEntry>, b: seq<IngredientEntry>)
    ensures SubmittedIngredients(a + b) == SubmittedIngredients(a) + SubmittedIngredients(b)
  {
    Query.FilterAppend(a, b, Named);
  }

  /** A named row occurs in the payload as often as in the list, a blank one never. */
  lemma SubmittedCounts(list: seq<IngredientEntry>, e: IngredientEntry)
    ensures multiset(SubmittedIngredients(list))[e] == if Named(e) then multiset(list)[e] else 0
  {
    Query.FilterMultiset(list, Named, e);
  }

  /** Adding a row and leaving it blank does not change what is submitted. */
  lemma BlankRowIsNotSubmitted(list: seq<IngredientEntry>)
    ensures SubmittedIngredients(AddIngredient(list)) == SubmittedIngredients(list)
  {
    var blank := [BlankEntry];
    assert !Named(blank[0]) by {
      assert Text.AllSpace(blank[0].name);
    }
    Query.FilterNone(blank, Named);
    Query.FilterAppend(list, blank, Named);
    assert SubmittedIngredients(list + blank) == SubmittedIngredients(list) + [];
  }

  // ------------------------------------------------------------ validation

  const TitleRequired := "Title is required"
  const DescriptionRequired := "Description is required"
  const IngredientRequired := "At least one ingredient is required"

  /** The form may be submitted: a title and a description that are not blank, and at
      least one named ingredient row. */
  predicate RecipeFormValid(form: RecipeForm) {
    !Text.IsBlank(form.title) && !Text.IsBlank(form.description) && SubmittedIngredients(form.ingredients) != []
  }

  /** `validateForm`: the errors object it builds and the answer it gives. */
  method ValidateRecipeForm(form: RecipeForm) returns (errors: map<string, string>, valid: bool)
    ensures "title" in errors <==> Text.IsBlank(form.title)
    ensures "title" in errors ==> errors["title"] == TitleRequired
    ensures "description" in errors <==> Text.IsBlank(form.description)
    ensures "description" in errors ==> errors["description"] == DescriptionRequired
    ensures "ingredients" in errors <==> forall i :: 0 <= i < |form.ingredients| ==> Text.IsBlank(form.ingredients[i].name)
    ensures "ingredients" in errors ==> errors["ingredients"] == IngredientRequired
    ensures errors.Keys <= {"title", "description", "ingredients"}
    ensures valid <==> errors == map[]
    ensures valid <==> RecipeFormValid(form)
  {
    errors := map[];
    if Text.IsBlank(form.title) {
      errors := errors["title" := TitleRequired];
    }
    if Text.IsBlank(form.description) {
      errors := errors["description" := DescriptionRequired];
    }
    var validIngredients := SubmittedIngredients(form.ingredients);
    NoneSubmittedIffAllBlank(form.ingredients);
    if |validIngredients| == 0 {
      errors := errors["ingredients" := IngredientRequired];
    }
    // `Object.keys(newErrors).length === 0`
    valid := errors == map[];
  }

  // ------------------------------------------------------------ photo picker

  /** The file the picker hands over: its size in bytes and its MIME type. */
  datatype PhotoFile = PhotoFile(size: nat, mimeType: string)

  const MaxPhotoSize: nat := 5 * 1024 * 1024
  const AcceptedTypes: seq<string> := ["image/jpeg", "image/png", "image/webp"]
  const PhotoTooLarge := "File size must be less than 5MB"
  const PhotoWrongType := "File must be JPEG, PNG, or WebP"

  /** The photo file kept for upload and the page's error messages. */
  datatype PhotoState = PhotoState(photoFile: Option<PhotoFile>, errors: map<string, string>)

  predicate Acceptable(f: PhotoFile) {
    f.size <= MaxPhotoSize && f.mimeType in AcceptedTypes
  }

  /** `handlePhotoChange`: no file changes nothing; the size is checked before the type;
      a rejected file leaves the kept file as it was and sets the photo error; an
      accepted file is kept and the photo error is emptied. No other error changes. */
  function PhotoChange(selected: Option<PhotoFile>, s: PhotoState): (r: PhotoState)
    ensures selected.None? ==> r == s
    ensures selected.Some? && selected.value.size > MaxPhotoSize ==>
      r == PhotoState(s.photoFile, s.errors["photo" := PhotoTooLarge])
    ensures selected.Some? && selected.value.size <= MaxPhotoSize && selected.value.mimeType !in AcceptedTypes ==>
      r == PhotoState(s.photoFile, s.errors["photo" := PhotoWrongType])
    ensures r.photoFile == s.photoFile || (selected.Some? && Acceptable(selected.value) && r.photoFile == selected)
    ensures selected.Some? && Acceptable(selected.value) ==> r == PhotoState(selected, s.errors["photo" := ""])
    ensures forall k :: k != "photo" ==> (k in r.errors <==> k in s.errors)
    ensures forall k :: k != "photo" && k in s.errors ==> r.errors[k] == s.errors[k]
  {
    match selected
    case None => s
    case Some(f) =>
      if f.size > MaxPhotoSize then PhotoState(s.photoFile, s.errors["photo" := PhotoTooLarge])
      else if f.mimeType !in AcceptedTypes then PhotoState(s.photoFile, s.errors["photo" := PhotoWrongType])
      else PhotoState(selected, s.errors["photo" := ""])
  }

  /** The file kept for upload has always passed both checks. */
  predicate PhotoInvariant(s: PhotoState) {
    s.photoFile.Some? ==> Acceptable(s.photoFile.value)
  }

  lemma PhotoChangeKeepsInvariant(selected: Option<PhotoFile>, s: PhotoState)
    requires PhotoInvariant(s)
    ensures PhotoInvariant(PhotoChange(selected, s))
  {
  }

  /** The size limit is inclusive, and an oversized file gets the size message even when
      its type is also wrong. */
  lemma PhotoSizeBoundary(t: string, s: PhotoState)
    ensures t in AcceptedTypes ==> PhotoChange(Some(PhotoFile(MaxPhotoSize, t)), s).photoFile == Some(PhotoFile(MaxPhotoSize, t))
    ensures PhotoChange(Some(PhotoFile(MaxPhotoSize + 1, t)), s).errors["photo"] == PhotoTooLarge
    ensures PhotoChange(Some(PhotoFile(MaxPhotoSize + 1, t)), s).photoFile == s.photoFile
  {
  }

  /** A GIF of any size the form allows is refused with the type message. */
  lemma GifIsRefused(size: nat, s: PhotoState)
    requires size <= MaxPhotoSize
    ensures PhotoChange(Some(PhotoFile(size, "image/gif")), s).errors["photo"] == PhotoWrongType
  {
    var gif := "image/gif";
    assert gif != AcceptedTypes[0] && gif != AcceptedTypes[1] && gif != AcceptedTypes[2] by {
      assert gif[6] == 'g';
      assert AcceptedTypes[0][6] == 'j';
      assert AcceptedTypes[1][6] == 'p';
      assert AcceptedTypes[2][6] == 'w';
    }
  }
}
