/** The recipe handlers over one store that holds the three tables. Each write handler
    checks what the source checks, in the same order, and answers with the same status
    and message; the tables change only on the success path. */
module RecipeController {
  import opened Wrappers
  import opened Recipes
  import Query
  import Ratings
  import Js

  /** `RecipeModel.getById(id)`: the recipe row with its ingredients and reviews embedded. */
  datatype RecipeRecord = RecipeRecord(recipe: Recipe, ingredients: seq<Ingredient>, reviews: seq<Review>)

  /** The reply of `getRecipeById`: the record, its reviews newest first, and the rating. */
  datatype RecipeDetail = RecipeDetail(
    recipe: Recipe, ingredients: seq<Ingredient>, reviews: seq<Review>, averageRating: real, totalReviews: nat)

  /** `!rating || rating < 1 || rating > 5` rejects the rating; `None` is a missing or
      null field. */
  predicate RatingAccepted(rating: Option<real>) {
    rating.Some? && rating.value != 0.0 && !(rating.value < 1.0) && !(rating.value > 5.0)
  }

  /** `parseInt(rating)` of an accepted rating: the number's integral part. */
  function StoredRating(rating: Option<real>): (stars: int)
    requires RatingAccepted(rating)
    ensures 1 <= stars <= 5
    ensures stars as real <= rating.value < stars as real + 1.0
  {
    rating.value.Floor
  }

  /** A page of a listing holds at most `limit` rows, newest first, each a stored recipe
      the filter selects, summarized with its own ingredients and rating. */
  lemma PageOfListing(recipes: seq<Recipe>, ingredients: seq<Ingredient>, reviews: seq<Review>,
                      f: RecipeFilter, page: int, limit: int)
    requires page >= 1 && limit >= 1
    ensures var data := Summaries(Query.Page(Listing(recipes, f), page, limit), ingredients, reviews);
      && |data| <= limit
      && (forall i :: 0 <= i < |data| ==>
            data[i].recipe in recipes && Selects(f, data[i].recipe)
            && data[i] == Summarize(data[i].recipe, ingredients, reviews))
      && (forall i, j :: 0 <= i < j < |data| ==> data[i].recipe.createdAt >= data[j].recipe.createdAt)
  {
    var selected := Select(recipes, f);
    var rows := Query.Page(Query.SortNewest(selected, RecipeStamp), page, limit);
    var data := Summaries(rows, ingredients, reviews);
    Query.PageOfSorted(selected, RecipeStamp, page, limit);
    forall i | 0 <= i < |rows| ensures rows[i] in recipes && Selects(f, rows[i]) {
      assert rows[i] in selected;
    }
    forall i, j | 0 <= i < j < |data| ensures data[i].recipe.createdAt >= data[j].recipe.createdAt {
      assert RecipeStamp(rows[i]) >= RecipeStamp(rows[j]);
    }
  }

  /** A page of a recipe's reviews holds at most `limit` rows, newest first, each a stored
      review of that recipe; the sorted list has as many rows as there are reviews. */
  lemma PageOfReviews(reviews: seq<Review>, id: RecipeId, page: int, limit: int)
    requires page >= 1 && limit >= 1
    ensures var matched := Query.SortNewest(ReviewsOf(reviews, id), ReviewStamp);
      var data := Query.Page(matched, page, limit);
      && |matched| == |ReviewsOf(reviews, id)|
      && |data| <= limit
      && (forall i :: 0 <= i < |data| ==> data[i] in reviews && data[i].recipeId == id)
      && Query.NewestFirst(data, ReviewStamp)
  {
    var mine := ReviewsOf(reviews, id);
    var data := Query.Page(Query.SortNewest(mine, ReviewStamp), page, limit);
    Query.PageOfSorted(mine, ReviewStamp, page, limit);
    forall i | 0 <= i < |data| ensures data[i] in reviews && data[i].recipeId == id {
      assert data[i] in mine;
    }
  }

  class RecipeStore {
    var recipes: seq<Recipe>
    var ingredients: seq<Ingredient>
    var reviews: seq<Review>
    var nextRecipeId: nat
    var nextReviewId: nat

    ghost predicate Valid()
      reads this
    {
      Consistent(recipes, ingredients, reviews, nextRecipeId, nextReviewId)
    }

    constructor ()
      ensures Valid()
      ensures recipes == [] && ingredients == [] && reviews == []
    {
      recipes := [];
      ingredients := [];
      reviews := [];
      nextRecipeId := 0;
      nextReviewId := 0;
    }

    /** `RecipeModel.getById(id)`: `None` when no row has that id. */
    function Record(id: RecipeId): (r: Option<RecipeRecord>)
      reads this
      ensures r.Some? <==> HasId(recipes, id)
      ensures r.Some? ==> r.value.recipe in recipes && r.value.recipe.id == id
    {
      match FindRecipe(recipes, id)
      case None => None
      case Some(row) => Some(RecipeRecord(row, IngredientsOf(ingredients, id), ReviewsOf(reviews, id)))
    }

    // ----------------------------------------------------------------- reads

    /** `GET /api/recipes`: one page of the public recipes that match the search and the
        category, newest first, each with its rating, and the count of all matches. */
    method GetAllRecipes(page: int, limit: int, search: string, category: string)
      returns (reply: ListReply<RecipeSummary>)
      requires page >= 1 && limit >= 1
      ensures reply.count == |Listing(recipes, PublicFilter(search, category))|
      ensures reply.data == Summaries(Query.Page(Listing(recipes, PublicFilter(search, category)), page, limit),
                                      ingredients, reviews)
      ensures reply.page == page && reply.limit == Some(limit)
      ensures reply.totalPages == Query.CeilDiv(reply.count, limit)
      ensures |reply.data| <= limit
      ensures forall i :: 0 <= i < |reply.data| ==> reply.data[i].recipe in recipes && reply.data[i].recipe.isPublic == Some(true)
      ensures forall i, j :: 0 <= i < j < |reply.data| ==>
        reply.data[i].recipe.createdAt >= reply.data[j].recipe.createdAt
    {
      var filter := RecipeFilter(true, None, None, None);
      if search != "" {
        filter := filter.(search := Some(search));
      }
      if category != "" {
        filter := filter.(category := Some(category));
      }
      assert filter == PublicFilter(search, category);
      var matched := Listing(recipes, PublicFilter(search, category));
      // `.range(offset, offset + limit - 1)` with `offset = (page - 1) * limit`
      var rows := Query.Page(matched, page, limit);
      PageOfListing(recipes, ingredients, reviews, PublicFilter(search, category), page, limit);
      reply := ListReply(Summaries(rows, ingredients, reviews), |matched|, page, Some(limit),
                         Query.CeilDiv(|matched|, limit));
    }

    /** `GET /api/recipes/user/:userId`: one page of that user's recipes, private ones
        included, newest first, each with its rating. */
    function GetUserRecipes(owner: UserId, page: int, limit: int): (reply: ListReply<RecipeSummary>)
      requires page >= 1 && limit >= 1
      reads this
      ensures reply.count == |Listing(recipes, OwnerFilter(owner))|
      ensures reply.data == Summaries(Query.Page(Listing(recipes, OwnerFilter(owner)), page, limit),
                                      ingredients, reviews)
      ensures reply.page == page && reply.limit == None
      ensures reply.totalPages == Query.CeilDiv(reply.count, limit)
      ensures |reply.data| <= limit
      ensures forall i :: 0 <= i < |reply.data| ==>
        reply.data[i].recipe in recipes && reply.data[i].recipe.userId == owner
        && reply.data[i] == Summarize(reply.data[i].recipe, ingredients, reviews)
      ensures forall i, j :: 0 <= i < j < |reply.data| ==>
        reply.data[i].recipe.createdAt >= reply.data[j].recipe.createdAt
    {
      var matched := Listing(recipes, OwnerFilter(owner));
      var rows := Query.Page(matched, page, limit);
      PageOfListing(recipes, ingredients, reviews, OwnerFilter(owner), page, limit);
      ListReply(Summaries(rows, ingredients, reviews), |matched|, page, None, Query.CeilDiv(|matched|, limit))
    }

    /** `GET /api/recipes/:id`: 404 for an unknown id; otherwise the recipe, its
        ingredients, all its reviews newest first, their count and their mean rating. */
    function GetRecipeById(id: RecipeId): (res: Response<RecipeDetail>)
      reads this
      ensures res.Failure? <==> !HasId(recipes, id)
      ensures res.Failure? ==> res == Failure(404, "Recipe not found")
      ensures res.Success? ==>
        && res.status == 200
        && res.body.recipe in recipes && res.body.recipe.id == id
        && res.body.ingredients == IngredientsOf(ingredients, id)
        && Query.NewestFirst(res.body.reviews, ReviewStamp)
        && multiset(res.body.reviews) == multiset(ReviewsOf(reviews, id))
        && res.body.totalReviews == |ReviewsOf(reviews, id)|
        && res.body.averageRating == RecipeRating(reviews, id)
    {
      match FindRecipe(recipes, id)
      case None => Failure(404, "Recipe not found")
      case Some(row) =>
        var mine := Query.SortNewest(ReviewsOf(reviews, id), ReviewStamp);
        SortedRatingAgrees(reviews, id);
        assert |mine| == |multiset(mine)| == |multiset(ReviewsOf(reviews, id))| == |ReviewsOf(reviews, id)|;
        Success(200, RecipeDetail(row, IngredientsOf(ingredients, id), mine,
                                  Ratings.AverageRating(RatingsOf(mine)), |mine|))
    }

    /** `GET /api/recipes/:id/reviews`: one page of the reviews of `id`, newest first. The
        handler does not look the recipe up: an unknown id gives an empty page. */
    function GetRecipeReviews(id: RecipeId, page: int, limit: int): (reply: ListReply<Review>)
      requires page >= 1 && limit >= 1
      reads this
      ensures reply.count == |ReviewsOf(reviews, id)|
      ensures reply.data == Query.Page(Query.SortNewest(ReviewsOf(reviews, id), ReviewStamp), page, limit)
      ensures reply.page == page && reply.limit == None
      ensures reply.totalPages == Query.CeilDiv(reply.count, limit)
      ensures |reply.data| <= limit
      ensures forall i :: 0 <= i < |reply.data| ==> reply.data[i] in reviews && reply.data[i].recipeId == id
      ensures Query.NewestFirst(reply.data, ReviewStamp)
    {
      var matched := Query.SortNewest(ReviewsOf(reviews, id), ReviewStamp);
      PageOfReviews(reviews, id, page, limit);
      ListReply(Query.Page(matched, page, limit), |matched|, page, None, Query.CeilDiv(|matched|, limit))
    }

    /** Reviews of a recipe that is not stored do not exist: its review page is empty. */
    lemma NoReviewsForUnknownRecipe(id: RecipeId, page: int, limit: int)
      requires Valid() && !HasId(recipes, id)
      requires page >= 1 && limit >= 1
      ensures GetRecipeReviews(id, page, limit).data == []
      ensures GetRecipeReviews(id, page, limit).count == 0
    {
      Query.FilterNone(reviews, (v: Review) => v.recipeId == id);
    }

    // ---------------------------------------------------------------- writes

    /** `POST /api/recipes`. Title and description are checked first, then the ingredient
        list; a valid body inserts the recipe for the caller under the next id, then its
        ingredient rows, and answers 201 with the stored record. `ingredientsStored` is
        the outcome of the ingredient insert, whose error the handler does not look at. */
    method CreateRecipe(caller: UserId, body: RecipeBody, now: nat, ingredientsStored: bool)
      returns (res: Response<RecipeRecord>)
      requires Valid()
      modifies this
      ensures Valid()
      ensures !CreateFieldsPresent(body) ==>
        res == Failure(400, "Title and description are required") && unchanged(this)
      ensures CreateFieldsPresent(body) && !CreateIngredientsPresent(body) ==>
        res == Failure(400, "At least one ingredient is required") && unchanged(this)
      ensures CreateFieldsPresent(body) && CreateIngredientsPresent(body) ==>
        var r := NewRecipe(old(nextRecipeId), caller, body, now);
        var rows := if ingredientsStored then IngredientRows(r.id, body.ingredients.value) else [];
        && recipes == old(recipes) + [r]
        && ingredients == old(ingredients) + rows
        && reviews == old(reviews)
        && nextRecipeId == old(nextRecipeId) + 1 && nextReviewId == old(nextReviewId)
        && res == Success(201, RecipeRecord(r, rows, []))
    {
      if !CreateFieldsPresent(body) {
        return Failure(400, "Title and description are required");
      }
      if !CreateIngredientsPresent(body) {
        return Failure(400, "At least one ingredient is required");
      }
      var r := NewRecipe(nextRecipeId, caller, body, now);
      var rows := if ingredientsStored then IngredientRows(r.id, body.ingredients.value) else [];
      Insert(r, rows);
      res := Success(201, Record(r.id).value);
    }

    /** The two inserts of a valid creation: the recipe under the next id, then its
        ingredient rows. Reading the new id back gives the recipe, those rows and no
        review. */
    method Insert(r: Recipe, rows: seq<Ingredient>)
      requires Valid() && r.id == nextRecipeId
      requires forall i :: 0 <= i < |rows| ==> rows[i].recipeId == r.id
      modifies this
      ensures Valid()
      ensures recipes == old(recipes) + [r] && ingredients == old(ingredients) + rows
      ensures reviews == old(reviews)
      ensures nextRecipeId == old(nextRecipeId) + 1 && nextReviewId == old(nextReviewId)
      ensures Record(r.id) == Some(RecipeRecord(r, rows, []))
    {
      CreateKeepsConsistent(recipes, ingredients, reviews, nextRecipeId, nextReviewId, r, rows);
      CreatedRecipeIsFound(recipes, ingredients, reviews, nextRecipeId, nextReviewId, r, rows);
      recipes := recipes + [r];
      ingredients := ingredients + rows;
      nextRecipeId := nextRecipeId + 1;
    }

    /** `PUT /api/recipes/:id`. 404 for an unknown id and 403 for a caller who does not own
        the recipe, with nothing changed; otherwise the row becomes `MergeUpdates` of the
        body, a non-empty ingredient list replaces the recipe's ingredients, and the reply
        is the stored record. */
    method UpdateRecipe(id: RecipeId, caller: UserId, body: RecipeBody, ingredientsStored: bool)
      returns (res: Response<RecipeRecord>)
      requires Valid()
      modifies this
      ensures Valid()
      ensures !HasId(old(recipes), id) ==> res == Failure(404, "Recipe not found") && unchanged(this)
      ensures HasId(old(recipes), id) && FindRecipe(old(recipes), id).value.userId != caller ==>
        res == Failure(403, "Not authorized to update this recipe") && unchanged(this)
      ensures HasId(old(recipes), id) && FindRecipe(old(recipes), id).value.userId == caller ==>
        var m := MergeUpdates(FindRecipe(old(recipes), id).value, body);
        var rows := if ingredientsStored && ReplacesIngredients(body) then IngredientRows(id, body.ingredients.value) else [];
        && recipes == ReplaceRecipe(old(recipes), m)
        && ingredients == (if ReplacesIngredients(body) then IngredientsWithout(old(ingredients), id) + rows
                           else old(ingredients))
        && reviews == old(reviews)
        && nextRecipeId == old(nextRecipeId) && nextReviewId == old(nextReviewId)
        && res == Success(200, RecipeRecord(m, IngredientsOf(ingredients, id), ReviewsOf(reviews, id)))
    {
      var found := FindRecipe(recipes, id);
      if found.None? {
        return Failure(404, "Recipe not found");
      }
      var row := found.value;
      if row.userId != caller {
        return Failure(403, "Not authorized to update this recipe");
      }
      var m := MergeUpdates(row, body);
      MergeKeepsIdentity(row, body);
      var rows := if ingredientsStored && ReplacesIngredients(body) then IngredientRows(id, body.ingredients.value) else [];
      Replace(m, ReplacesIngredients(body), rows);
      res := Success(200, Record(id).value);
    }

    /** The writes of an authorized update: the recipe's row becomes `m` and, when the
        body replaces the ingredient list, the recipe's ingredient rows become `rows`.
        Reading the id back gives `m` with the recipe's current ingredients and reviews. */
    method Replace(m: Recipe, replaceIngredients: bool, rows: seq<Ingredient>)
      requires Valid() && HasId(recipes, m.id)
      requires forall i :: 0 <= i < |rows| ==> rows[i].recipeId == m.id
      modifies this
      ensures Valid()
      ensures recipes == ReplaceRecipe(old(recipes), m)
      ensures ingredients == if replaceIngredients then IngredientsWithout(old(ingredients), m.id) + rows
                             else old(ingredients)
      ensures reviews == old(reviews)
      ensures nextRecipeId == old(nextRecipeId) && nextReviewId == old(nextReviewId)
      ensures Record(m.id) == Some(RecipeRecord(m, IngredientsOf(ingredients, m.id), ReviewsOf(reviews, m.id)))
    {
      UpdateKeepsConsistent(recipes, ingredients, reviews, nextRecipeId, nextReviewId, m, rows);
      FindAfterReplace(recipes, m, m.id);
      recipes := ReplaceRecipe(recipes, m);
      if replaceIngredients {
        ingredients := IngredientsWithout(ingredients, m.id) + rows;
      }
    }

    /** `DELETE /api/recipes/:id`. 404 and 403 as for an update; otherwise the recipe's
        ingredients, then its reviews, then the recipe row are deleted. */
    method DeleteRecipe(id: RecipeId, caller: UserId) returns (res: Response<string>)
      requires Valid()
      modifies this
      ensures Valid()
      ensures !HasId(old(recipes), id) ==> res == Failure(404, "Recipe not found") && unchanged(this)
      ensures HasId(old(recipes), id) && FindRecipe(old(recipes), id).value.userId != caller ==>
        res == Failure(403, "Not authorized to delete this recipe") && unchanged(this)
      ensures HasId(old(recipes), id) && FindRecipe(old(recipes), id).value.userId == caller ==>
        && recipes == RecipesWithout(old(recipes), id)
        && ingredients == IngredientsWithout(old(ingredients), id)
        && reviews == ReviewsWithout(old(reviews), id)
        && nextRecipeId == old(nextRecipeId) && nextReviewId == old(nextReviewId)
        && res == Success(200, "Recipe deleted successfully")
        && GetRecipeById(id) == Failure(404, "Recipe not found")
    {
      var found := FindRecipe(recipes, id);
      if found.None? {
        return Failure(404, "Recipe not found");
      }
      if found.value.userId != caller {
        return Failure(403, "Not authorized to delete this recipe");
      }
      Remove(id);
      res := Success(200, "Recipe deleted successfully");
    }

    /** The three deletes of an authorized deletion: the recipe's ingredient rows, its
        reviews, then its row. No recipe has the id afterwards. */
    method Remove(id: RecipeId)
      requires Valid()
      modifies this
      ensures Valid()
      ensures recipes == RecipesWithout(old(recipes), id)
      ensures ingredients == IngredientsWithout(old(ingredients), id)
      ensures reviews == ReviewsWithout(old(reviews), id)
      ensures nextRecipeId == old(nextRecipeId) && nextReviewId == old(nextReviewId)
      ensures !HasId(recipes, id)
    {
      DeleteKeepsConsistent(recipes, ingredients, reviews, nextRecipeId, nextReviewId, id);
      ingredients := IngredientsWithout(ingredients, id);
      reviews := ReviewsWithout(reviews, id);
      var kept := RecipesWithout(recipes, id);
      assert forall i :: 0 <= i < |kept| ==> kept[i].id != id;
      recipes := kept;
    }

    /** `POST /api/recipes/:id/reviews`. The rating is checked before the recipe is looked
        up; an accepted review is stored for the caller with the rating's integral part
        and a null comment for an empty one, and answered with 201. */
    method AddReview(id: RecipeId, caller: UserId, rating: Option<real>, comment: Option<string>, now: nat)
      returns (res: Response<Review>)
      requires Valid()
      modifies this
      ensures Valid()
      ensures !RatingAccepted(rating) ==> res == Failure(400, "Rating must be between 1 and 5") && unchanged(this)
      ensures RatingAccepted(rating) && !HasId(old(recipes), id) ==>
        res == Failure(404, "Recipe not found") && unchanged(this)
      ensures RatingAccepted(rating) && HasId(old(recipes), id) ==>
        var v := Review(old(nextReviewId), id, caller, StoredRating(rating), Js.OrNull(comment), now);
        && reviews == old(reviews) + [v]
        && recipes == old(recipes) && ingredients == old(ingredients)
        && nextRecipeId == old(nextRecipeId) && nextReviewId == old(nextReviewId) + 1
        && res == Success(201, v)
    {
      if !RatingAccepted(rating) {
        return Failure(400, "Rating must be between 1 and 5");
      }
      if FindRecipe(recipes, id).None? {
        return Failure(404, "Recipe not found");
      }
      var v := Review(nextReviewId, id, caller, StoredRating(rating), Js.OrNull(comment), now);
      ReviewKeepsConsistent(recipes, ingredients, reviews, nextRecipeId, nextReviewId, v);
      reviews := reviews + [v];
      nextReviewId := nextReviewId + 1;
      res := Success(201, v);
    }
  }
}
