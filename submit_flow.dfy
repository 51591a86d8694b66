/** What the pages send to the server, and what the server's first checks make of it: a
    recipe form that validates is never refused for a missing field or ingredient, a
    photo the picker keeps is never refused for its size, and a registration form that
    validates is never refused for a missing field. */
module SubmitFlow {
  import opened Wrappers
  import Js
  import Text
  import Recipes
  import PhotoService
  import CreateRecipeForm
  import RegisterForm

  /** The `recipeData` object the creation page posts: the form's text fields as they
      are, the uploaded photo's URL or null, and only the named ingredient rows. */
  function RecipePayload(form: CreateRecipeForm.RecipeForm, photoUrl: Option<string>): (body: Recipes.RecipeBody)
    ensures body.title == Some(form.title) && body.description == Some(form.description)
    ensures body.servings == Some(form.servings) && body.prepTime == Some(form.prepTime)
      && body.cookTime == Some(form.cookTime)
    ensures body.difficulty == Some(form.difficulty) && body.category == Some(form.category)
    ensures body.isPublic == Recipes.Given(form.isPublic)
    ensures body.ingredients.Some?
    ensures |body.ingredients.value| == |CreateRecipeForm.SubmittedIngredients(form.ingredients)|
    ensures forall i :: 0 <= i < |body.ingredients.value| ==>
      var e := CreateRecipeForm.SubmittedIngredients(form.ingredients)[i];
      body.ingredients.value[i] == Recipes.IngredientInput(e.name, Some(e.quantity), Some(e.unit))
    ensures body.photoUrl == if photoUrl.Some? then Recipes.Given(photoUrl.value) else Recipes.Null
  {
    var named := CreateRecipeForm.SubmittedIngredients(form.ingredients);
    Recipes.RecipeBody(
      Some(form.title), Some(form.description),
      Some(form.servings), Some(form.prepTime), Some(form.cookTime),
      Some(form.difficulty), Some(form.category),
      Some(seq(|named|, i requires 0 <= i < |named| =>
        Recipes.IngredientInput(named[i].name, Some(named[i].quantity), Some(named[i].unit)))),
      if photoUrl.Some? then Recipes.Given(photoUrl.value) else Recipes.Null,
      Recipes.Given(form.isPublic))
  }

  /** A non-blank text is a truthy one. */
  lemma NotBlankIsTruthy(s: string)
    requires !Text.IsBlank(s)
    ensures Js.Truthy(Some(s))
  {
    var empty: string := [];
    assert Text.AllSpace(empty);
    assert Text.IsBlank(empty);
  }

  /** The page only posts a form that validates, and such a payload passes both 400
      checks of `createRecipe`; every ingredient row the server then stores has a name
      that is not blank. */
  lemma ValidFormPassesCreateChecks(form: CreateRecipeForm.RecipeForm, photoUrl: Option<string>, id: nat)
    requires CreateRecipeForm.RecipeFormValid(form)
    ensures Recipes.CreateFieldsPresent(RecipePayload(form, photoUrl))
    ensures Recipes.CreateIngredientsPresent(RecipePayload(form, photoUrl))
    ensures var rows := Recipes.IngredientRows(id, RecipePayload(form, photoUrl).ingredients.value);
      forall i :: 0 <= i < |rows| ==> !Text.IsBlank(rows[i].name)
  {
    NotBlankIsTruthy(form.title);
    NotBlankIsTruthy(form.description);
    var body := RecipePayload(form, photoUrl);
    var named := CreateRecipeForm.SubmittedIngredients(form.ingredients);
    var rows := Recipes.IngredientRows(id, body.ingredients.value);
    forall i | 0 <= i < |rows| ensures !Text.IsBlank(rows[i].name) {
      assert rows[i].name == named[i].name;
      assert CreateRecipeForm.Named(named[i]);
    }
  }

  /** The page's visibility checkbox decides the stored visibility: the page posts the
      boolean, and the server stores `isPublic === true`. */
  lemma CheckboxSetsVisibility(form: CreateRecipeForm.RecipeForm, photoUrl: Option<string>, id: nat,
                               owner: string, now: nat)
    requires CreateRecipeForm.RecipeFormValid(form)
    ensures Recipes.CreateFieldsPresent(RecipePayload(form, photoUrl))
    ensures Recipes.NewRecipe(id, owner, RecipePayload(form, photoUrl), now).isPublic == Some(form.isPublic)
  {
    ValidFormPassesCreateChecks(form, photoUrl, id);
  }

  /** Without a photo the recipe is stored with no photo URL. */
  lemma NoPhotoStoresNoUrl(form: CreateRecipeForm.RecipeForm)
    ensures Recipes.CreatedPhotoUrl(RecipePayload(form, None).photoUrl) == None
  {
  }

  /** The picker's limit and the upload service's limit are the same number of bytes, so
      a non-empty file the picker keeps is stored when the storage call succeeds. */
  lemma KeptPhotoIsUploaded(f: CreateRecipeForm.PhotoFile, bytes: seq<bv8>, name: string, userId: string,
                            uuid: string, publicUrlOf: string -> string)
    requires CreateRecipeForm.Acceptable(f) && |bytes| == f.size && f.size > 0
    ensures PhotoService.UploadRecipePhoto(Some(bytes), name, userId, uuid, None, publicUrlOf).Ok?
  {
    assert CreateRecipeForm.MaxPhotoSize == PhotoService.MaxFileSize;
  }

  /** The registration page only posts a form that validates, and its email, password and
      first name are then all present: the server's "Missing required fields" reply
      cannot follow. */
  lemma ValidRegistrationHasRequiredFields(form: RegisterForm.RegisterFields)
    requires RegisterForm.RegistrationValid(form)
    ensures Js.Truthy(Some(form.email)) && Js.Truthy(Some(form.password)) && Js.Truthy(Some(form.firstName))
  {
    NotBlankIsTruthy(form.firstName);
    var empty: string := [];
    assert Text.AllSpace(empty);
    RegisterForm.BlankIsNoEmail(empty);
  }
}
