/** The recipe aggregate as values: recipe rows, the ingredient and review rows that point
    at them by `recipe_id`, the request bodies of the write handlers, and the pure pieces
    of the handlers (create defaults, the update merge, the per-recipe selections, the
    listing filter and the derived rating) with what they promise. */
module Recipes {
  import opened Wrappers
  import Js
  import Text
  import Query
  import Ratings

  type RecipeId = nat
  type UserId = string

  /** A row of the `recipes` table. The three numeric columns and `is_public` are
      nullable: `None` is SQL NULL, which is what a `NaN` from `parseInt` becomes once it
      is sent as JSON, and what an explicit `null` visibility writes. */
  datatype Recipe = Recipe(
    id: RecipeId,
    userId: UserId,
    title: string,
    description: string,
    servings: Option<int>,
    prepTime: Option<int>,
    cookTime: Option<int>,
    difficulty: string,
    category: string,
    photoUrl: Option<string>,
    isPublic: Option<bool>,
    createdAt: nat)

  /** A row of the `ingredients` table. */
  datatype Ingredient = Ingredient(recipeId: RecipeId, name: string, quantity: Option<string>, unit: string)

  /** A row of the `reviews` table. */
  datatype Review = Review(id: nat, recipeId: RecipeId, userId: UserId, rating: int, comment: Option<string>, createdAt: nat)

  // ------------------------------------------------------------ request bodies

  /** A JSON body field whose `undefined` and `null` the handler tells apart. */
  datatype Field<T> = Absent | Null | Given(value: T)

  datatype IngredientInput = IngredientInput(name: string, quantity: Option<string>, unit: Option<string>)

  /** The body of a create or update request. `None` is a field that is missing or null;
      `ingredients` is `None` also when the field is not an array. `photoUrl` and
      `isPublic` keep `undefined` and `null` apart, as the update handler does. */
  datatype RecipeBody = RecipeBody(
    title: Option<string>,
    description: Option<string>,
    servings: Option<string>,
    prepTime: Option<string>,
    cookTime: Option<string>,
    difficulty: Option<string>,
    category: Option<string>,
    ingredients: Option<seq<IngredientInput>>,
    photoUrl: Field<string>,
    isPublic: Field<bool>)

  const EmptyBody := RecipeBody(None, None, None, None, None, None, None, None, Absent, Absent)

  // -------------------------------------------------------------------- create

  /** `parseInt(v) || fallback`: a zero or `NaN` gives the fallback. */
  function ParseOr(v: Option<string>, fallback: int): (n: int)
    ensures fallback != 0 ==> n != 0
    ensures Js.ParseField(v).Some? && Js.ParseField(v).value != 0 ==> n == Js.ParseField(v).value
    ensures Js.ParseField(v) in {None, Some(0)} ==> n == fallback
  {
    match Js.ParseField(v)
    case Some(k) => if k != 0 then k else fallback
    case None => fallback
  }

  /** `photoUrl || null`. */
  function CreatedPhotoUrl(u: Field<string>): Option<string> {
    match u
    case Given(s) => Js.OrNull(Some(s))
    case _ => None
  }

  predicate CreateFieldsPresent(body: RecipeBody) {
    Js.Truthy(body.title) && Js.Truthy(body.description)
  }

  predicate CreateIngredientsPresent(body: RecipeBody) {
    body.ingredients.Some? && body.ingredients.value != []
  }

  /** The row `createRecipe` inserts for `owner`, with the store's next id and time. */
  function NewRecipe(id: RecipeId, owner: UserId, body: RecipeBody, now: nat): Recipe
    requires CreateFieldsPresent(body)
  {
    Recipe(
      id, owner, body.title.value, body.description.value,
      Some(ParseOr(body.servings, 4)), Some(ParseOr(body.prepTime, 15)), Some(ParseOr(body.cookTime, 30)),
      Js.OrElse(body.difficulty, "medium"), Js.OrElse(body.category, "other"),
      CreatedPhotoUrl(body.photoUrl), Some(body.isPublic == Given(true)), now)
  }

  /** The defaults of a new recipe. The owner is the caller whatever the body says; the
      numeric columns are never null and never zero, and a missing, empty, non-numeric or
      zero value falls back to 4 servings, 15 and 30 minutes; difficulty falls back to
      `medium` and category to `other`; an empty or missing photo is null; and the recipe
      is public only when `isPublic` is the boolean `true`. */
  lemma NewRecipeDefaults(id: RecipeId, owner: UserId, body: RecipeBody, now: nat)
    requires CreateFieldsPresent(body)
    ensures var r := NewRecipe(id, owner, body, now);
      && r.id == id && r.userId == owner && r.createdAt == now
      && r.title == body.title.value && r.description == body.description.value
      && r.servings.Some? && r.servings.value != 0
      && r.prepTime.Some? && r.prepTime.value != 0
      && r.cookTime.Some? && r.cookTime.value != 0
      && (Js.ParseField(body.servings) in {None, Some(0)} ==> r.servings == Some(4))
      && (Js.ParseField(body.prepTime) in {None, Some(0)} ==> r.prepTime == Some(15))
      && (Js.ParseField(body.cookTime) in {None, Some(0)} ==> r.cookTime == Some(30))
      && (Js.ParseField(body.servings) !in {None, Some(0)} ==> r.servings == Js.ParseField(body.servings))
      && (Js.ParseField(body.prepTime) !in {None, Some(0)} ==> r.prepTime == Js.ParseField(body.prepTime))
      && (Js.ParseField(body.cookTime) !in {None, Some(0)} ==> r.cookTime == Js.ParseField(body.cookTime))
      && (r.difficulty == "medium" <==> !Js.Truthy(body.difficulty) || body.difficulty == Some("medium"))
      && (r.category == "other" <==> !Js.Truthy(body.category) || body.category == Some("other"))
      && (r.photoUrl.None? <==> !body.photoUrl.Given? || body.photoUrl == Given(""))
      && (r.photoUrl.Some? ==> body.photoUrl == Given(r.photoUrl.value))
      && r.isPublic.Some? && (r.isPublic == Some(true) <==> body.isPublic == Given(true))
  {
  }

  /** A zero, a non-numeric string and a missing field all give the default. */
  lemma CreateFallbackExamples()
    ensures ParseOr(Some("0"), 4) == 4
    ensures ParseOr(Some("abc"), 4) == 4
    ensures ParseOr(None, 15) == 15
  {
    Js.ParseIntToString("", 0, "");
    assert "" + Js.IntToString(0) + "" == "0";
    Js.ParseIntNoDigit("", "", "abc");
    assert "" + "" + "abc" == "abc";
  }

  /** `parseInt` reads the leading number of a string: " 6 people" gives 6 servings. */
  lemma SixPeople()
    ensures Js.ParseInt(" 6 people") == Some(6)
    ensures ParseOr(Some(" 6 people"), 4) == 6
  {
    assert Js.IntToString(6) == "6";
    assert " " + "6" + " people" == " 6 people";
    assert Text.AllSpace(" ") && !Js.IsDigit(' ', 10);
    Js.ParseIntToString(" ", 6, " people");
  }

  /** `parseInt` reads a `0x` prefix as hexadecimal: "0x10" gives 16 minutes. */
  lemma HexTen()
    ensures Js.ParseInt("0x10") == Some(16)
    ensures ParseOr(Some("0x10"), 30) == 16
  {
    Js.TrimStartAfterSpace("", "0x10");
    assert "" + "0x10" == "0x10";
    Js.DigitPrefixOfDigits("10", "", 16);
    assert "0x10"[2..] == "10" + "";
    assert Js.ValueOf("10", 16) == 16 by {
      assert "10"[..1] == "1";
      assert "1"[..0] == "";
    }
    assert Js.ParseUnsigned("0x10") == Some(16);
  }

  /** `ingredients.map(ing => ({ recipe_id: id, name, quantity, unit: ing.unit || '' }))`. */
  function IngredientRows(id: RecipeId, inputs: seq<IngredientInput>): (rows: seq<Ingredient>)
    ensures |rows| == |inputs|
    ensures forall i :: 0 <= i < |rows| ==>
      rows[i].recipeId == id && rows[i].name == inputs[i].name
      && rows[i].quantity == inputs[i].quantity && rows[i].unit == Js.OrElse(inputs[i].unit, "")
  {
    seq(|inputs|, i requires 0 <= i < |inputs| =>
      Ingredient(id, inputs[i].name, inputs[i].quantity, Js.OrElse(inputs[i].unit, "")))
  }

  // -------------------------------------------------------------------- update

  /** The `updates` object of `updateRecipe` applied to the stored row `r`. */
  function MergeUpdates(r: Recipe, body: RecipeBody): Recipe {
    r.(
      title := Js.OrElse(body.title, r.title),
      description := Js.OrElse(body.description, r.description),
      servings := if Js.Truthy(body.servings) then Js.ParseInt(body.servings.value) else r.servings,
      prepTime := if Js.Truthy(body.prepTime) then Js.ParseInt(body.prepTime.value) else r.prepTime,
      cookTime := if Js.Truthy(body.cookTime) then Js.ParseInt(body.cookTime.value) else r.cookTime,
      difficulty := Js.OrElse(body.difficulty, r.difficulty),
      category := Js.OrElse(body.category, r.category),
      photoUrl := match body.photoUrl
                  case Absent => r.photoUrl
                  case Null => None
                  case Given(u) => Some(u),
      isPublic := match body.isPublic
                  case Absent => r.isPublic
                  case Null => None
                  case Given(b) => Some(b))
  }

  /** An update never moves a recipe to another owner, id or creation time, and a body
      that supplies nothing leaves the row as it was. */
  lemma MergeKeepsIdentity(r: Recipe, body: RecipeBody)
    ensures var m := MergeUpdates(r, body);
      m.id == r.id && m.userId == r.userId && m.createdAt == r.createdAt
    ensures MergeUpdates(r, EmptyBody) == r
  {
  }

  /** Sending the same update twice has the effect of sending it once. */
  lemma MergeIdempotent(r: Recipe, body: RecipeBody)
    ensures MergeUpdates(MergeUpdates(r, body), body) == MergeUpdates(r, body)
  {
  }

  /** A falsy text field keeps the stored value and a truthy one replaces it; so does a
      non-empty numeric string, which is written as `parseInt` reads it, `NaN` (null)
      included, and "0" as 0. An explicit photo or visibility is written, `null` included,
      and only a missing one keeps the stored value. */
  lemma MergeFieldRules(r: Recipe, body: RecipeBody)
    ensures var m := MergeUpdates(r, body);
      && (m.title == if Js.Truthy(body.title) then body.title.value else r.title)
      && (m.description == if Js.Truthy(body.description) then body.description.value else r.description)
      && (m.difficulty == if Js.Truthy(body.difficulty) then body.difficulty.value else r.difficulty)
      && (m.category == if Js.Truthy(body.category) then body.category.value else r.category)
      && (m.servings == if Js.Truthy(body.servings) then Js.ParseInt(body.servings.value) else r.servings)
      && (m.prepTime == if Js.Truthy(body.prepTime) then Js.ParseInt(body.prepTime.value) else r.prepTime)
      && (m.cookTime == if Js.Truthy(body.cookTime) then Js.ParseInt(body.cookTime.value) else r.cookTime)
      && (body.servings == Some("0") ==> m.servings == Some(0))
      && (body.servings == Some("abc") ==> m.servings == None)
      && (body.photoUrl == Null ==> m.photoUrl == None)
      && (body.photoUrl == Absent ==> m.photoUrl == r.photoUrl)
      && (body.photoUrl.Given? ==> m.photoUrl == Some(body.photoUrl.value))
      && (body.isPublic.Given? ==> m.isPublic == Some(body.isPublic.value))
      && (body.isPublic == Null ==> m.isPublic == None)
      && (body.isPublic == Absent ==> m.isPublic == r.isPublic)
  {
    Js.ParseIntToString("", 0, "");
    assert "" + Js.IntToString(0) + "" == "0";
    Js.ParseIntNoDigit("", "", "abc");
    assert "" + "" + "abc" == "abc";
  }

  /** An update with `"isPublic": null` stores a null visibility, which no public
      listing selects: the recipe leaves `GET /api/recipes`. */
  lemma NullVisibilityLeavesPublicListing(r: Recipe, body: RecipeBody, search: string, category: string)
    requires body.isPublic == Null
    ensures MergeUpdates(r, body).isPublic == None
    ensures !Selects(PublicFilter(search, category), MergeUpdates(r, body))
  {
  }

  predicate ReplacesIngredients(body: RecipeBody) {
    body.ingredients.Some? && body.ingredients.value != []
  }

  // ------------------------------------------------------- per-recipe selections

  function RecipeStamp(r: Recipe): int { r.createdAt }
  function ReviewStamp(r: Review): int { r.createdAt }

  predicate HasId(recipes: seq<Recipe>, id: RecipeId) {
    exists i :: 0 <= i < |recipes| && recipes[i].id == id
  }

  /** `RecipeModel.getById(id)`: the stored row with that id, if there is one. */
  function FindRecipe(recipes: seq<Recipe>, id: RecipeId): (r: Option<Recipe>)
    ensures r.Some? <==> HasId(recipes, id)
    ensures r.Some? ==> r.value in recipes && r.value.id == id
  {
    if recipes == [] then None
    else if recipes[0].id == id then Some(recipes[0])
    else
      var r := FindRecipe(recipes[1..], id);
      assert HasId(recipes, id) ==> HasId(recipes[1..], id) by {
        if HasId(recipes, id) {
          var i :| 0 <= i < |recipes| && recipes[i].id == id;
          assert i > 0 && recipes[1..][i - 1].id == id;
        }
      }
      assert HasId(recipes[1..], id) ==> HasId(recipes, id) by {
        if HasId(recipes[1..], id) {
          var i :| 0 <= i < |recipes[1..]| && recipes[1..][i].id == id;
          assert recipes[i + 1].id == id;
        }
      }
      r
  }

  function IngredientsOf(rows: seq<Ingredient>, id: RecipeId): seq<Ingredient> {
    Query.Filter(rows, (g: Ingredient) => g.recipeId == id)
  }

  /** `delete().eq('recipe_id', id)` on the ingredients. */
  function IngredientsWithout(rows: seq<Ingredient>, id: RecipeId): seq<Ingredient> {
    Query.Filter(rows, (g: Ingredient) => g.recipeId != id)
  }

  function ReviewsOf(rows: seq<Review>, id: RecipeId): seq<Review> {
    Query.Filter(rows, (v: Review) => v.recipeId == id)
  }

  /** `delete().eq('recipe_id', id)` on the reviews. */
  function ReviewsWithout(rows: seq<Review>, id: RecipeId): seq<Review> {
    Query.Filter(rows, (v: Review) => v.recipeId != id)
  }

  /** `RecipeModel.delete(id)`. */
  function RecipesWithout(recipes: seq<Recipe>, id: RecipeId): seq<Recipe> {
    Query.Filter(recipes, (r: Recipe) => r.id != id)
  }

  /** `RecipeModel.update(id, updates)`: the row with `m`'s id becomes `m`. */
  function ReplaceRecipe(recipes: seq<Recipe>, m: Recipe): (rs: seq<Recipe>)
    ensures |rs| == |recipes|
    ensures forall i :: 0 <= i < |rs| ==> rs[i] == if recipes[i].id == m.id then m else recipes[i]
  {
    seq(|recipes|, i requires 0 <= i < |recipes| => if recipes[i].id == m.id then m else recipes[i])
  }

  /** The ratings of some reviews, in their order. */
  function RatingsOf(rows: seq<Review>): (rs: seq<int>)
    ensures |rs| == |rows|
    ensures forall i :: 0 <= i < |rows| ==> rs[i] == rows[i].rating
  {
    seq(|rows|, i requires 0 <= i < |rows| => rows[i].rating)
  }

  /** Ratings of `b1 + [x] + b2` are those of `b1 + b2` and `x`'s rating. */
  lemma RatingsOfSplit(b1: seq<Review>, x: Review, b2: seq<Review>)
    ensures multiset(RatingsOf(b1 + [x] + b2)) == multiset(RatingsOf(b1 + b2)) + multiset{x.rating}
  {
    var rb1, rb2 := RatingsOf(b1), RatingsOf(b2);
    assert RatingsOf(b1 + [x] + b2) == rb1 + [x.rating] + rb2;
    assert RatingsOf(b1 + b2) == rb1 + rb2;
  }

  lemma {:induction false} RatingsOfPermutation(a: seq<Review>, b: seq<Review>)
    requires multiset(a) == multiset(b)
    ensures multiset(RatingsOf(a)) == multiset(RatingsOf(b))
  {
    if a != [] {
      var x := a[|a| - 1];
      var a' := a[..|a| - 1];
      assert a == a' + [x] + [];
      assert a' + [] == a';
      assert x in multiset(b);
      var k :| 0 <= k < |b| && b[k] == x;
      var b1, b2 := b[..k], b[k + 1..];
      assert b == b1 + [x] + b2;
      assert multiset(a') == multiset(a) - multiset{x};
      assert multiset(b1 + b2) == multiset(b) - multiset{x};
      RatingsOfPermutation(a', b1 + b2);
      RatingsOfSplit(a', x, []);
      RatingsOfSplit(b1, x, b2);
    }
  }

  /** The rating of a recipe from every review that points at it, in any order. */
  function RecipeRating(reviews: seq<Review>, id: RecipeId): real {
    Ratings.AverageRating(RatingsOf(ReviewsOf(reviews, id)))
  }

  /** The detail view averages its reviews after sorting them newest first; the listings
      average them in store order. The two give the same rating. */
  lemma SortedRatingAgrees(reviews: seq<Review>, id: RecipeId)
    ensures Ratings.AverageRating(RatingsOf(Query.SortNewest(ReviewsOf(reviews, id), ReviewStamp)))
         == RecipeRating(reviews, id)
  {
    var mine := ReviewsOf(reviews, id);
    RatingsOfPermutation(Query.SortNewest(mine, ReviewStamp), mine);
    Ratings.AveragePermutation(RatingsOf(Query.SortNewest(mine, ReviewStamp)), RatingsOf(mine));
  }

  // ------------------------------------------------------------------ listings

  /** The conditions a listing query puts on recipe rows. */
  datatype RecipeFilter = RecipeFilter(
    publicOnly: bool, owner: Option<UserId>, search: Option<string>, category: Option<string>)

  /** `eq('is_public', true)`, `eq('user_id', u)`, the `or` of two `ilike '%term%'`, and
      `eq('category', c)`, each only when the query has it. */
  predicate Selects(f: RecipeFilter, r: Recipe) {
    && (f.publicOnly ==> r.isPublic == Some(true))
    && (f.owner.Some? ==> r.userId == f.owner.value)
    && (f.search.Some? ==>
          Text.ContainsIgnoringCase(r.title, f.search.value)
          || Text.ContainsIgnoringCase(r.description, f.search.value))
    && (f.category.Some? ==> r.category == f.category.value)
  }

  function Select(recipes: seq<Recipe>, f: RecipeFilter): seq<Recipe> {
    Query.Filter(recipes, (r: Recipe) => Selects(f, r))
  }

  /** The filter of the public listing: an empty search or category adds no condition. */
  function PublicFilter(search: string, category: string): RecipeFilter {
    RecipeFilter(true, None, if search == "" then None else Some(search),
                 if category == "" then None else Some(category))
  }

  function OwnerFilter(owner: UserId): RecipeFilter {
    RecipeFilter(false, Some(owner), None, None)
  }

  /** All recipes a filter selects, newest first: the listing before its range is cut. */
  function Listing(recipes: seq<Recipe>, f: RecipeFilter): seq<Recipe> {
    Query.SortNewest(Select(recipes, f), RecipeStamp)
  }

  /** The public listing holds exactly the public recipes that match the search in title
      or description and the category, each as often as it is stored, newest first. */
  lemma PublicListingContents(recipes: seq<Recipe>, search: string, category: string, r: Recipe)
    ensures var l := Listing(recipes, PublicFilter(search, category));
      && Query.NewestFirst(l, RecipeStamp)
      && |l| == |Select(recipes, PublicFilter(search, category))|
      && multiset(l)[r] == if r.isPublic == Some(true)
          && (search == "" || Text.ContainsIgnoringCase(r.title, search) || Text.ContainsIgnoringCase(r.description, search))
          && (category == "" || r.category == category)
         then multiset(recipes)[r] else 0
  {
    var f := PublicFilter(search, category);
    Query.FilterMultiset(recipes, (x: Recipe) => Selects(f, x), r);
    assert |multiset(Listing(recipes, f))| == |multiset(Select(recipes, f))|;
  }

  /** A user's listing holds every recipe of that user, private ones included, and no
      other. */
  lemma OwnerListingContents(recipes: seq<Recipe>, owner: UserId, r: Recipe)
    ensures var l := Listing(recipes, OwnerFilter(owner));
      && Query.NewestFirst(l, RecipeStamp)
      && multiset(l)[r] == if r.userId == owner then multiset(recipes)[r] else 0
  {
    Query.FilterMultiset(recipes, (x: Recipe) => Selects(OwnerFilter(owner), x), r);
  }

  /** A recipe of the listings enriched with its ingredients and its rating. */
  datatype RecipeSummary = RecipeSummary(
    recipe: Recipe, ingredients: seq<Ingredient>, ratings: seq<int>, averageRating: real, reviewCount: nat)

  function Summarize(r: Recipe, ingredients: seq<Ingredient>, reviews: seq<Review>): RecipeSummary {
    var ratings := RatingsOf(ReviewsOf(reviews, r.id));
    RecipeSummary(r, IngredientsOf(ingredients, r.id), ratings, Ratings.AverageRating(ratings), |ratings|)
  }

  /** `data.map(recipe => ({ ...recipe, averageRating, reviewCount }))`. */
  function Summaries(rows: seq<Recipe>, ingredients: seq<Ingredient>, reviews: seq<Review>): (s: seq<RecipeSummary>)
    ensures |s| == |rows|
    ensures forall i :: 0 <= i < |rows| ==> s[i] == Summarize(rows[i], ingredients, reviews)
  {
    seq(|rows|, i requires 0 <= i < |rows| => Summarize(rows[i], ingredients, reviews))
  }

  /** Every listed recipe reports as many reviews as point at it and the mean of their
      ratings (`AverageRating`): 0 when there is none, and otherwise between 1 and 5 stars
      when every stored rating is. */
  lemma SummaryRating(r: Recipe, ingredients: seq<Ingredient>, reviews: seq<Review>)
    requires forall i :: 0 <= i < |reviews| ==> 1 <= reviews[i].rating <= 5
    ensures var s := Summarize(r, ingredients, reviews);
      var mine := ReviewsOf(reviews, r.id);
      && s.reviewCount == |mine| && s.ratings == RatingsOf(mine)
      && s.averageRating == RecipeRating(reviews, r.id)
      && (mine == [] ==> s.averageRating == 0.0)
      && (mine != [] ==> 1.0 <= s.averageRating <= 5.0)
  {
    var mine := ReviewsOf(reviews, r.id);
    var rs := RatingsOf(mine);
    if mine != [] {
      ReviewsOfInStars(reviews, r.id);
      Ratings.AverageInStars(rs);
    }
  }

  lemma ReviewsOfInStars(reviews: seq<Review>, id: RecipeId)
    requires forall i :: 0 <= i < |reviews| ==> 1 <= reviews[i].rating <= 5
    ensures Ratings.InStars(RatingsOf(ReviewsOf(reviews, id)))
  {
    var mine := ReviewsOf(reviews, id);
    var rs := RatingsOf(mine);
    forall i | 0 <= i < |rs| ensures 1 <= rs[i] <= 5 {
      assert mine[i] in reviews;
    }
  }

  /** The reply of a listing handler. `limit` is echoed only by the public listing. */
  datatype ListReply<T> = ListReply(data: seq<T>, count: nat, page: int, limit: Option<int>, totalPages: nat)

  // --------------------------------------------------------------- invariant

  predicate UniqueIds(recipes: seq<Recipe>) {
    forall i, j :: 0 <= i < |recipes| && 0 <= j < |recipes| && recipes[i].id == recipes[j].id ==> i == j
  }

  /** What holds of the three tables between requests: recipe ids are unique and below
      the next id to hand out; every ingredient and review points at a stored recipe;
      every stored rating is 1 to 5 stars; review ids are below the next review id. */
  predicate Consistent(recipes: seq<Recipe>, ingredients: seq<Ingredient>, reviews: seq<Review>,
                       nextRecipeId: nat, nextReviewId: nat) {
    && UniqueIds(recipes)
    && (forall i :: 0 <= i < |recipes| ==> recipes[i].id < nextRecipeId)
    && (forall i :: 0 <= i < |ingredients| ==> HasId(recipes, ingredients[i].recipeId))
    && (forall i :: 0 <= i < |reviews| ==> HasId(recipes, reviews[i].recipeId))
    && (forall i :: 0 <= i < |reviews| ==> 1 <= reviews[i].rating <= 5 && reviews[i].id < nextReviewId)
  }

  /** Inserting a recipe under the next id, followed by its ingredient rows, keeps the
      tables consistent. */
  lemma CreateKeepsConsistent(recipes: seq<Recipe>, ingredients: seq<Ingredient>, reviews: seq<Review>,
                              nextRecipeId: nat, nextReviewId: nat, r: Recipe, rows: seq<Ingredient>)
    requires Consistent(recipes, ingredients, reviews, nextRecipeId, nextReviewId)
    requires r.id == nextRecipeId
    requires forall i :: 0 <= i < |rows| ==> rows[i].recipeId == r.id
    ensures Consistent(recipes + [r], ingredients + rows, reviews, nextRecipeId + 1, nextReviewId)
  {
    var rs := recipes + [r];
    forall id | HasId(recipes, id) ensures HasId(rs, id) {
      var i :| 0 <= i < |recipes| && recipes[i].id == id;
      assert rs[i].id == id;
    }
    assert rs[|recipes|].id == r.id;
    var gs := ingredients + rows;
    forall i | 0 <= i < |gs| ensures HasId(rs, gs[i].recipeId) {
      if i < |ingredients| { assert gs[i] == ingredients[i]; } else { assert gs[i] == rows[i - |ingredients|]; }
    }
  }

  /** Replacing a recipe's row by its merged row, and optionally its ingredients by rows
      of the same recipe, keeps the tables consistent. */
  lemma UpdateKeepsConsistent(recipes: seq<Recipe>, ingredients: seq<Ingredient>, reviews: seq<Review>,
                              nextRecipeId: nat, nextReviewId: nat, m: Recipe, rows: seq<Ingredient>)
    requires Consistent(recipes, ingredients, reviews, nextRecipeId, nextReviewId)
    requires HasId(recipes, m.id)
    requires forall i :: 0 <= i < |rows| ==> rows[i].recipeId == m.id
    ensures Consistent(ReplaceRecipe(recipes, m), ingredients, reviews, nextRecipeId, nextReviewId)
    ensures Consistent(ReplaceRecipe(recipes, m), IngredientsWithout(ingredients, m.id) + rows, reviews,
                       nextRecipeId, nextReviewId)
  {
    var rs := ReplaceRecipe(recipes, m);
    forall id | HasId(recipes, id) ensures HasId(rs, id) {
      var i :| 0 <= i < |recipes| && recipes[i].id == id;
      assert rs[i].id == id;
    }
    var kept := IngredientsWithout(ingredients, m.id);
    var gs := kept + rows;
    forall i | 0 <= i < |gs| ensures HasId(rs, gs[i].recipeId) {
      if i < |kept| {
        assert gs[i] == kept[i] && kept[i] in ingredients;
        var j :| 0 <= j < |ingredients| && ingredients[j] == kept[i];
      } else {
        assert gs[i] == rows[i - |kept|];
      }
    }
  }

  /** Deleting the ingredients, then the reviews, then the recipe keeps the tables
      consistent: no row is left pointing at the deleted id. */
  lemma DeleteKeepsConsistent(recipes: seq<Recipe>, ingredients: seq<Ingredient>, reviews: seq<Review>,
                              nextRecipeId: nat, nextReviewId: nat, id: RecipeId)
    requires Consistent(recipes, ingredients, reviews, nextRecipeId, nextReviewId)
    ensures Consistent(RecipesWithout(recipes, id), IngredientsWithout(ingredients, id),
                       ReviewsWithout(reviews, id), nextRecipeId, nextReviewId)
  {
    var rs := RecipesWithout(recipes, id);
    forall k | k != id && HasId(recipes, k) ensures HasId(rs, k) {
      var i :| 0 <= i < |recipes| && recipes[i].id == k;
      assert recipes[i] in rs;
      var j :| 0 <= j < |rs| && rs[j] == recipes[i];
    }
    forall i, j | 0 <= i < |rs| && 0 <= j < |rs| && rs[i].id == rs[j].id ensures i == j {
      RecipesWithoutUnique(recipes, id, i, j);
    }
    forall i | 0 <= i < |rs| ensures rs[i].id < nextRecipeId {
      assert rs[i] in recipes;
    }
    var gs := IngredientsWithout(ingredients, id);
    forall i | 0 <= i < |gs| ensures HasId(rs, gs[i].recipeId) {
      assert gs[i] in ingredients;
    }
    var vs := ReviewsWithout(reviews, id);
    forall i | 0 <= i < |vs| ensures HasId(rs, vs[i].recipeId) && 1 <= vs[i].rating <= 5 && vs[i].id < nextReviewId {
      assert vs[i] in reviews;
    }
  }

  lemma {:induction false} RecipesWithoutUnique(recipes: seq<Recipe>, id: RecipeId, i: int, j: int)
    requires UniqueIds(recipes)
    requires 0 <= i < |RecipesWithout(recipes, id)| && 0 <= j < |RecipesWithout(recipes, id)|
    requires RecipesWithout(recipes, id)[i].id == RecipesWithout(recipes, id)[j].id
    ensures i == j
  {
    var tail := RecipesWithout(recipes[1..], id);
    assert UniqueIds(recipes[1..]) by {
      forall a, b | 0 <= a < |recipes[1..]| && 0 <= b < |recipes[1..]| && recipes[1..][a].id == recipes[1..][b].id
        ensures a == b
      {
        assert recipes[a + 1].id == recipes[b + 1].id;
      }
    }
    if recipes[0].id == id {
      RecipesWithoutUnique(recipes[1..], id, i, j);
    } else if i > 0 && j > 0 {
      RecipesWithoutUnique(recipes[1..], id, i - 1, j - 1);
    } else {
      OthersInTail(recipes);
      assert forall k :: 0 <= k < |tail| ==> tail[k] in recipes[1..];
    }
  }

  /** With unique ids, no later row shares the id of the first. */
  lemma OthersInTail(recipes: seq<Recipe>)
    requires UniqueIds(recipes) && recipes != []
    ensures forall x :: x in recipes[1..] ==> x.id != recipes[0].id
  {
    forall x | x in recipes[1..] ensures x.id != recipes[0].id {
      var m :| 0 <= m < |recipes[1..]| && recipes[1..][m] == x;
      assert recipes[m + 1] == x;
    }
  }

  /** Appending a review of a stored recipe with a rating of 1 to 5 stars under the next
      review id keeps the tables consistent. */
  lemma ReviewKeepsConsistent(recipes: seq<Recipe>, ingredients: seq<Ingredient>, reviews: seq<Review>,
                              nextRecipeId: nat, nextReviewId: nat, v: Review)
    requires Consistent(recipes, ingredients, reviews, nextRecipeId, nextReviewId)
    requires HasId(recipes, v.recipeId) && 1 <= v.rating <= 5 && v.id == nextReviewId
    ensures Consistent(recipes, ingredients, reviews + [v], nextRecipeId, nextReviewId + 1)
  {
  }

  // ------------------------------------------------------------------ cascade

  /** After a delete the recipe is gone and no ingredient or review points at its id,
      while every other recipe, and the ingredients and reviews of every other recipe,
      are exactly as before. */
  lemma DeleteCascade(recipes: seq<Recipe>, ingredients: seq<Ingredient>, reviews: seq<Review>,
                      id: RecipeId, other: RecipeId)
    requires UniqueIds(recipes)
    requires other != id
    ensures FindRecipe(RecipesWithout(recipes, id), id) == None
    ensures IngredientsOf(IngredientsWithout(ingredients, id), id) == []
    ensures ReviewsOf(ReviewsWithout(reviews, id), id) == []
    ensures FindRecipe(RecipesWithout(recipes, id), other) == FindRecipe(recipes, other)
    ensures IngredientsOf(IngredientsWithout(ingredients, id), other) == IngredientsOf(ingredients, other)
    ensures ReviewsOf(ReviewsWithout(reviews, id), other) == ReviewsOf(reviews, other)
  {
    var rs := RecipesWithout(recipes, id);
    assert forall i :: 0 <= i < |rs| ==> rs[i].id != id;
    var gs := IngredientsWithout(ingredients, id);
    assert forall i :: 0 <= i < |gs| ==> gs[i].recipeId != id;
    Query.FilterNone(gs, (g: Ingredient) => g.recipeId == id);
    var vs := ReviewsWithout(reviews, id);
    assert forall i :: 0 <= i < |vs| ==> vs[i].recipeId != id;
    Query.FilterNone(vs, (v: Review) => v.recipeId == id);
    FilterTwice(ingredients, id, other);
    FilterTwiceReviews(reviews, id, other);
    FindAfterRemoval(recipes, id, other);
  }

  lemma {:induction false} FilterTwice(rows: seq<Ingredient>, id: RecipeId, other: RecipeId)
    requires other != id
    ensures IngredientsOf(IngredientsWithout(rows, id), other) == IngredientsOf(rows, other)
  {
    if rows != [] {
      FilterTwice(rows[1..], id, other);
    }
  }

  lemma {:induction false} FilterTwiceReviews(rows: seq<Review>, id: RecipeId, other: RecipeId)
    requires other != id
    ensures ReviewsOf(ReviewsWithout(rows, id), other) == ReviewsOf(rows, other)
  {
    if rows != [] {
      FilterTwiceReviews(rows[1..], id, other);
    }
  }

  lemma {:induction false} FindAfterRemoval(recipes: seq<Recipe>, id: RecipeId, other: RecipeId)
    requires other != id
    ensures FindRecipe(RecipesWithout(recipes, id), other) == FindRecipe(recipes, other)
  {
    if recipes != [] {
      FindAfterRemoval(recipes[1..], id, other);
    }
  }

  /** A recipe row replaced by an update is found as the merged row, and every other
      recipe is found as before. */
  lemma FindAfterReplace(recipes: seq<Recipe>, m: Recipe, k: RecipeId)
    requires UniqueIds(recipes) && HasId(recipes, m.id)
    ensures FindRecipe(ReplaceRecipe(recipes, m), k) == if k == m.id then Some(m) else FindRecipe(recipes, k)
  {
    var rs := ReplaceRecipe(recipes, m);
    assert UniqueIds(rs) by {
      forall i, j | 0 <= i < |rs| && 0 <= j < |rs| && rs[i].id == rs[j].id ensures i == j {
        assert rs[i].id == recipes[i].id && rs[j].id == recipes[j].id;
      }
    }
    FindUnique(rs, k);
    FindUnique(recipes, k);
    if HasId(rs, k) {
      var i :| 0 <= i < |rs| && rs[i].id == k;
      assert recipes[i].id == k;
    }
  }

  /** With unique ids, the row found for `k` is the one row whose id is `k`. */
  lemma FindUnique(recipes: seq<Recipe>, k: RecipeId)
    requires UniqueIds(recipes)
    ensures forall i :: 0 <= i < |recipes| && recipes[i].id == k ==> FindRecipe(recipes, k) == Some(recipes[i])
  {
    forall i | 0 <= i < |recipes| && recipes[i].id == k ensures FindRecipe(recipes, k) == Some(recipes[i]) {
      var r := FindRecipe(recipes, k).value;
      var j :| 0 <= j < |recipes| && recipes[j] == r;
    }
  }

  // ------------------------------------------------------------ new rows

  /** No ingredient and no review points at the id a new recipe is about to get. */
  lemma FreshIdHasNoRows(recipes: seq<Recipe>, ingredients: seq<Ingredient>, reviews: seq<Review>,
                         nextRecipeId: nat, nextReviewId: nat)
    requires Consistent(recipes, ingredients, reviews, nextRecipeId, nextReviewId)
    ensures IngredientsOf(ingredients, nextRecipeId) == []
    ensures ReviewsOf(reviews, nextRecipeId) == []
  {
    forall i | 0 <= i < |ingredients| ensures ingredients[i].recipeId != nextRecipeId {
      var k :| 0 <= k < |recipes| && recipes[k].id == ingredients[i].recipeId;
    }
    Query.FilterNone(ingredients, (g: Ingredient) => g.recipeId == nextRecipeId);
    forall i | 0 <= i < |reviews| ensures reviews[i].recipeId != nextRecipeId {
      assert HasId(recipes, reviews[i].recipeId);
      var k :| 0 <= k < |recipes| && recipes[k].id == reviews[i].recipeId;
    }
    Query.FilterNone(reviews, (v: Review) => v.recipeId == nextRecipeId);
  }

  /** The ingredients of a recipe after its rows are appended are exactly those rows,
      when no row pointed at it before. */
  lemma AppendedRowsAreTheIngredients(ingredients: seq<Ingredient>, rows: seq<Ingredient>, id: RecipeId)
    requires IngredientsOf(ingredients, id) == []
    requires forall i :: 0 <= i < |rows| ==> rows[i].recipeId == id
    ensures IngredientsOf(ingredients + rows, id) == rows
  {
    Query.FilterAppend(ingredients, rows, (g: Ingredient) => g.recipeId == id);
    Query.FilterAll(rows, (g: Ingredient) => g.recipeId == id);
  }

  /** A new review joins the reviews of its recipe, last, and changes no other recipe's
      reviews. */
  lemma ReviewsAfterReview(reviews: seq<Review>, v: Review, other: RecipeId)
    requires other != v.recipeId
    ensures ReviewsOf(reviews + [v], v.recipeId) == ReviewsOf(reviews, v.recipeId) + [v]
    ensures ReviewsOf(reviews + [v], other) == ReviewsOf(reviews, other)
  {
    Query.FilterAppend(reviews, [v], (x: Review) => x.recipeId == v.recipeId);
    Query.FilterAppend(reviews, [v], (x: Review) => x.recipeId == other);
  }

  /** A new review moves its recipe's rating to the average of the ratings it had and
      the new one (`Ratings.AverageAfterReview` gives that mean in numbers). */
  lemma RatingAfterReview(reviews: seq<Review>, v: Review)
    ensures RecipeRating(reviews + [v], v.recipeId)
         == Ratings.AverageRating(RatingsOf(ReviewsOf(reviews, v.recipeId)) + [v.rating])
  {
    Query.FilterAppend(reviews, [v], (x: Review) => x.recipeId == v.recipeId);
    var mine := ReviewsOf(reviews, v.recipeId);
    assert ReviewsOf(reviews + [v], v.recipeId) == mine + [v];
    assert RatingsOf(mine + [v]) == RatingsOf(mine) + [v.rating];
  }

  /** Right after a create, looking the new id up finds the new row, exactly the
      ingredient rows inserted with it, and no review. */
  lemma CreatedRecipeIsFound(recipes: seq<Recipe>, ingredients: seq<Ingredient>, reviews: seq<Review>,
                             nextRecipeId: nat, nextReviewId: nat, r: Recipe, rows: seq<Ingredient>)
    requires Consistent(recipes, ingredients, reviews, nextRecipeId, nextReviewId)
    requires r.id == nextRecipeId
    requires forall i :: 0 <= i < |rows| ==> rows[i].recipeId == r.id
    ensures FindRecipe(recipes + [r], r.id) == Some(r)
    ensures IngredientsOf(ingredients + rows, r.id) == rows
    ensures ReviewsOf(reviews, r.id) == []
  {
    FreshIdHasNoRows(recipes, ingredients, reviews, nextRecipeId, nextReviewId);
    AppendedRowsAreTheIngredients(ingredients, rows, r.id);
    CreateKeepsConsistent(recipes, ingredients, reviews, nextRecipeId, nextReviewId, r, rows);
    FindUnique(recipes + [r], r.id);
    assert (recipes + [r])[|recipes|] == r;
  }
}
