# Digital Recipe Book: a verified model of the recipe, photo and account core

This project models the core of a recipe-sharing web application in Dafny and proves
properties of the model. The application is an Express server over a Supabase (PostgREST)
database with tables `recipes`, `ingredients`, `reviews` and `users`, plus a React
front end. The model covers:

- **The recipe controller.** Listing public recipes with search, category, pagination and
  average ratings. Listing one user's recipes; the detail view; a recipe's reviews.
  Creating, updating and deleting recipes, and adding reviews. These are methods and
  functions of a `RecipeStore` class whose fields are the three tables and the two id
  counters.
- **The photo service.** The upload guards, the extension and storage key, the declared
  content type, and the guards of delete and public-URL lookup.
- **The auth controller.** Register, login and the current-user lookup over a `UserStore`
  class holding the users table.
- **The recipe-creation page.** The ingredient editor (add, remove, change one field), the
  photo picker's checks, `validateForm`, and the ingredient filter of the posted payload.
- **The registration page.** `validateForm`, with the email regular expression given both
  as a pattern and as a plain test proved equivalent to it, and the change handler.

How the files are organised:

- `wrappers.dfy`, `text.dfy` and `js.dfy` give the JavaScript meaning of the operations
  the handlers use: `trim`, `\s`, truthiness, `||`, `parseInt` and number-to-text.
- `query.dfy` gives the PostgREST operations: `eq`/`or` filters, `order` descending,
  inclusive `range`, and the exact count.
- `ratings.dfy` holds the rating mean.
- `recipes.dfy` holds the tables' rows, the request bodies, the listings, the store
  invariant and the lemmas the controller needs.
- `submit_flow.dfy` connects what the two pages post with what the server checks first.

The database, storage bucket, password hashing, token signing and the two server-side
validators are outside the model. Store contents are in-memory sequences. The storage call's
outcome, the hash, the password comparison and the validators are parameters. Clock and
`uuid` values are parameters too.

## Model

| member | source | states |
|---|---|---|
| Ratings.AverageRating | backend/src/controllers/recipeController.js:38-45 | the mean is 0 for no reviews; otherwise mean times count equals the sum of the ratings |
| Ratings.AverageInStars | backend/src/controllers/recipeController.js:40-43 | when every stored rating is 1..5, the mean of a non-empty list lies in 1..5 |
| Ratings.AveragePermutation | backend/src/controllers/recipeController.js:114-117 | the mean does not depend on the order the reviews come back in |
| Ratings.AverageAfterReview | backend/src/controllers/recipeController.js:114-117 | the mean after one more review is the old sum plus the new rating, divided by the old count plus one |
| Ratings.AverageOfFiveThreeFour | backend/src/controllers/recipeController.js:114-117 | ratings 5, 3 and 4 average to 4 |
| Ratings.SumPermutation | backend/src/controllers/recipeController.js:42 | the sum the `reduce` forms is the same for any order of the same ratings |
| Recipes.SummaryRating | backend/src/controllers/recipeController.js:76-83 | a listed recipe's review count is its number of reviews; its average is that recipe's rating: 0 with no reviews, otherwise in 1..5 |
| Recipes.PublicListingContents | backend/src/controllers/recipeController.js:14-31 | the public listing is newest first; a recipe occurs in it exactly as often as it is stored, when it is public and matches the search (title or description, case-insensitive) and the category; otherwise never |
| Recipes.OwnerListingContents | backend/src/controllers/recipeController.js:66-72 | the user listing is newest first and holds exactly the stored recipes of that user, private ones included |
| Query.SortNewest | backend/src/controllers/recipeController.js:31 | `order('created_at', descending)` gives a permutation of the rows with non-increasing timestamps |
| Query.InsertKeepsOrder | backend/src/controllers/recipeController.js:31 | inserting a row by timestamp keeps a newest-first list newest first |
| Query.Range | backend/src/controllers/recipeController.js:31 | an inclusive `range(from, to)` is the rows from `from` to `to`, cut at the end of the result |
| Query.PageBounds | backend/src/controllers/recipeController.js:30-31 | a page has at most `limit` rows, and its i-th row is row `(page-1)*limit + i` of the result |
| Query.PageOfSorted | backend/src/controllers/recipeController.js:31 | sorting keeps the number of rows, and a page of the sorted rows has at most `limit` rows, all from the input, newest first |
| Query.RowOnPage | backend/src/controllers/recipeController.js:30-31 | every matching row appears on exactly the page its position names, and that page is within `totalPages` |
| Query.PagesAnnounced | backend/src/controllers/recipeController.js:52 | a page is empty exactly when its number exceeds `ceil(count/limit)` |
| Query.CeilDiv | backend/src/controllers/recipeController.js:52 | `Math.ceil(count/limit)`: the least number of pages of `limit` rows that hold `count` rows |
| Query.SecondPageOfThirteen | backend/src/controllers/recipeController.js:30-31 | with 13 matches and 12 per page, page 2 holds only the 13th row and there are 2 pages |
| Query.RangeEndFromText | backend/src/controllers/recipeController.js:30-31 | the range end as written, when `limit` arrives as query text: offset and limit are joined as text before 1 is subtracted |
| Query.FirstPageFromText | backend/src/controllers/recipeController.js:30-31 | on the first page the joined text still gives the intended end `limit - 1` |
| Query.SecondPageFromText | backend/src/controllers/recipeController.js:30-31 | for `?page=2&limit=12` the range end is 1211, and of 30 rows the second page returns 18, not 12 |
| Query.FilterMultiset | backend/src/controllers/recipeController.js:17 | a filter keeps each selected row as many times as it occurs and drops every other row |
| Query.FilterAppend | backend/src/controllers/recipeController.js:17 | filtering keeps the rows' order |
| RecipeController.RecipeStore.GetAllRecipes | backend/src/controllers/recipeController.js:10-58 | reply data is the requested page of the public, matching listing with each recipe's rating; `count` is the number of all matches; `totalPages = ceil(count/limit)`; at most `limit` rows, all stored and public, newest first |
| RecipeController.PageOfListing | backend/src/controllers/recipeController.js:14-31 | every row of a listing page is a stored recipe the filter selects, summarised with its rating; at most `limit` rows, newest first |
| RecipeController.PageOfReviews | backend/src/controllers/recipeController.js:322-330 | a page of a recipe's reviews holds at most `limit` stored reviews of that recipe, newest first, and the count is the number of its reviews |
| RecipeController.RecipeStore.GetUserRecipes | backend/src/controllers/recipeController.js:61-95 | the data is the requested page of the user's newest-first listing, private recipes included, each with its rating; its count, `totalPages`, no `limit` field in the reply; at most `limit` rows, each a stored recipe of that user, newest first |
| RecipeController.RecipeStore.GetRecipeById | backend/src/controllers/recipeController.js:98-129 | 404 exactly for an unknown id; otherwise the stored recipe, its ingredients, all of its reviews newest first, their count, and their mean as the average |
| RecipeController.RecipeStore.GetRecipeReviews | backend/src/controllers/recipeController.js:320-345 | the data is the requested page of the recipe's reviews sorted newest first; their count, `totalPages`; at most `limit` rows, each a stored review of that recipe, newest first |
| RecipeController.RecipeStore.NoReviewsForUnknownRecipe | backend/src/controllers/recipeController.js:320-331 | the handler does not look the recipe up: an unknown id gives an empty page with count 0 |
| RecipeController.RecipeStore.CreateRecipe | backend/src/controllers/recipeController.js:132-184 | 400 for a missing title or description, then 400 for a missing or empty ingredient list, with no change; otherwise appends the new recipe under the next id and its ingredient rows, keeps the store invariant and answers 201 with the stored record and no reviews |
| Recipes.NewRecipeDefaults | backend/src/controllers/recipeController.js:147-159 | numeric fields fall back to 4, 15 and 30 when `parseInt` gives `NaN` or 0, and otherwise hold the number it reads, so they are never 0 or null; difficulty and category fall back to `medium` and `other`; an empty photo URL is stored as null; the stored visibility is never null, and it is `true` exactly when `isPublic` is the boolean `true` |
| Recipes.ParseOr | backend/src/controllers/recipeController.js:151-153 | `parseInt(v) \|\| fallback` is the number `parseInt` reads when that is a non-zero number, and the fallback when it is `NaN` or 0; so never 0 for a non-zero fallback |
| Recipes.CreateFallbackExamples | backend/src/controllers/recipeController.js:151-153 | "0", "abc" and a missing field all give the fallback |
| Recipes.SixPeople | backend/src/controllers/recipeController.js:151-153 | `parseInt(" 6 people") || 4` is 6: the leading number after white space is read |
| Recipes.HexTen | backend/src/controllers/recipeController.js:151-153 | `parseInt("0x10") || 30` is 16: a `0x` prefix is read as hexadecimal |
| Recipes.IngredientRows | backend/src/controllers/recipeController.js:164-169 | one row per submitted ingredient, for the new recipe, with its name and quantity and the unit or `''` |
| Recipes.CreatedRecipeIsFound | backend/src/controllers/recipeController.js:176-179 | right after the insert, the lookup by the new id finds the new row, exactly the new ingredient rows and no reviews |
| Recipes.CreateKeepsConsistent | backend/src/controllers/recipeController.js:160-173 | inserting a recipe under the next id with its own ingredient rows keeps ids unique and every child row attached to a stored recipe |
| RecipeController.RecipeStore.UpdateRecipe | backend/src/controllers/recipeController.js:187-241 | 404 for an unknown id and 403 for another user's recipe, with no change; otherwise the row is replaced by the merged row (an explicit null photo or visibility is written as null), a non-empty ingredient array replaces that recipe's ingredients, reviews are kept, and the reply is the stored record |
| Recipes.MergeKeepsIdentity | backend/src/controllers/recipeController.js:204-214 | an update never changes the id, the owner or the creation time, and an empty body changes nothing |
| Recipes.MergeIdempotent | backend/src/controllers/recipeController.js:204-214 | applying the same update twice gives the same row as applying it once |
| Recipes.MergeFieldRules | backend/src/controllers/recipeController.js:204-214 | title, description, difficulty and category are replaced only by non-empty text; each of servings, prep time and cook time keeps the old value for falsy text and is otherwise written as `parseInt` reads it, so "0" is written as 0 and non-numeric text as null; a given photo or visibility is written as given, an explicit null writes null, and a missing one keeps the stored value |
| Recipes.NullVisibilityLeavesPublicListing | backend/src/controllers/recipeController.js:213 | an update with `isPublic: null` stores a null visibility, which the public listing's `eq('is_public', true)` never selects |
| Recipes.UpdateKeepsConsistent | backend/src/controllers/recipeController.js:216-232 | replacing the row, with or without replacing its ingredients, keeps the store invariant |
| Recipes.FindAfterReplace | backend/src/controllers/recipeController.js:234 | after the update, the lookup by the id finds the merged row, and by any other id what it found before |
| RecipeController.RecipeStore.DeleteRecipe | backend/src/controllers/recipeController.js:244-274 | 404 and 403 as for an update; otherwise the recipe, its ingredients and its reviews are removed, other rows kept, and a later lookup gives 404 |
| Recipes.DeleteCascade | backend/src/controllers/recipeController.js:259-266 | after the delete nothing of the recipe remains, and every other recipe's row, ingredients and reviews are as before |
| Recipes.DeleteKeepsConsistent | backend/src/controllers/recipeController.js:259-266 | deleting children before the recipe row keeps every remaining child attached to a stored recipe |
| RecipeController.RecipeStore.AddReview | backend/src/controllers/recipeController.js:277-317 | 400 for a missing, zero or out-of-range rating, checked before the 404 for an unknown recipe, with no change; otherwise appends one review under the next id with the rating's integral part and a null comment for an empty one, and answers 201 |
| RecipeController.StoredRating | backend/src/controllers/recipeController.js:301 | `parseInt` of an accepted rating is an integer in 1..5 no greater than the rating and within 1 of it |
| Recipes.ReviewKeepsConsistent | backend/src/controllers/recipeController.js:295-307 | a new review of a stored recipe with a rating in 1..5 keeps the store invariant |
| Recipes.ReviewsAfterReview | backend/src/controllers/recipeController.js:295-307 | the new review joins its recipe's reviews at the end and no other recipe's reviews change |
| Recipes.RatingAfterReview | backend/src/controllers/recipeController.js:295-307 | the recipe's rating after the review is the mean of its old ratings with the new one |
| Recipes.FindRecipe | backend/src/models/Recipe.js:58-72 | finds a stored row with that id exactly when one exists |
| RecipeController.RecipeStore.Record | backend/src/models/Recipe.js:58-72 | the record with embedded ingredients and reviews exists exactly for a stored id and holds that row |
| PhotoService.UploadRecipePhoto | backend/src/services/photoService.js:20-57 | an absent or empty buffer fails with "File buffer is empty", then one over 5 MB fails with the size message, then a storage error is passed on; otherwise the result is the key `userId/uuid.ext`, content type `image/ext` and the public URL of the key |
| PhotoService.TooLargeMessage | backend/src/services/photoService.js:28 | the size message, with the limit computed in megabytes, reads "File size exceeds maximum of 5MB" |
| PhotoService.SizeLimitBoundary | backend/src/services/photoService.js:27-29 | exactly 5 MB is accepted; one byte more gives "File size exceeds maximum of 5MB" |
| PhotoService.SplitCount | backend/src/services/photoService.js:32 | `split` of a text without the separator is that text alone; a text holding it splits into two or more parts |
| PhotoService.SplitPartsHaveNoSeparator | backend/src/services/photoService.js:32 | no part of `split(sep)` holds `sep` |
| PhotoService.JoinSplit | backend/src/services/photoService.js:32 | joining the parts with the separator gives back the name |
| PhotoService.LastPart | backend/src/services/photoService.js:32 | the last part of a split has no separator and ends the text, either as the whole text or right after a separator |
| PhotoService.Extension | backend/src/services/photoService.js:32 | the extension, the last part of `split('.')`, is a dot-free suffix of the name: the whole name, or the text after its last dot |
| PhotoService.ExtensionAfterDot | backend/src/services/photoService.js:32 | a name ending in `.ext` has extension `ext` |
| PhotoService.KeyInUserFolder | backend/src/services/photoService.js:32-39 | every key starts with the user's folder, and the key's own extension is that of the original name |
| PhotoService.KeysAreDistinct | backend/src/services/photoService.js:33 | different uuids give different keys, and different users (no `/` in their ids) never share a key |
| PhotoService.FolderOfKey | backend/src/services/photoService.js:33 | the folder read back from a key is the uploading user |
| PhotoService.ExtensionOfJpg | backend/src/services/photoService.js:32-39 | `photo.jpg` gives extension `jpg` and content type `image/jpg` |
| PhotoService.ExtensionOfUpperCaseJpg | backend/src/services/photoService.js:32-39 | `photo.JPG` keeps its case: extension `JPG`, content type `image/JPG` |
| PhotoService.ExtensionOfArchive | backend/src/services/photoService.js:32 | `archive.tar.gz` gives `gz` |
| PhotoService.ExtensionWithoutDot | backend/src/services/photoService.js:32-33 | a name without a dot is its own extension, so the key ends in `.` and the whole name |
| PhotoService.DeleteRecipePhoto | backend/src/services/photoService.js:64-77 | no path deletes nothing; otherwise the path is removed or the storage error is passed on |
| PhotoService.GetPhotoPublicUrl | backend/src/services/photoService.js:84-89 | null exactly for a missing or empty path; otherwise the storage's public URL of the path |
| PhotoService.UploadedPhotoCanBeServedAndDeleted | backend/src/services/photoService.js:45-52 | the path an upload returns yields the same public URL and can be deleted |
| AuthController.UserStore.Register | backend/src/controllers/authController.js:13-67 | 400 for a missing email, password or first name, then 400 for the email format, then 400 for the password rule, then 409 for a registered email, each with no change; otherwise exactly one user is added with the password's hash and `''` for a missing last name, the reply and token carry its id and email, and login with that password then succeeds |
| AuthController.UserStore.Login | backend/src/controllers/authController.js:72-112 | 400 without email or password; success exactly when the email is registered and the password matches its hash, with status 200, "Login successful", the user's fields and a token of its id and email; every other case is 401 "Invalid credentials" |
| AuthController.UserStore.LoginDoesNotRevealAccounts | backend/src/controllers/authController.js:82-91 | an unknown email and a wrong password get the identical 401 reply |
| AuthController.UserStore.GetCurrentUser | backend/src/controllers/authController.js:117-144 | 401 without a caller id, 404 for an id no user has; success exactly for an id a user has, with 200, "User fetched successfully" and that user's profile |
| AuthController.UserStore.LoginTokenIdentifiesUser | backend/src/controllers/authController.js:94 | the id in a login token leads the current-user lookup to the same user |
| AuthController.FindByEmail | backend/src/models/User.js:35-49 | finds a user holding exactly that email, or reports that none does |
| AuthController.FindById | backend/src/models/User.js:56-70 | finds a user with exactly that id, or reports that none has it |
| AuthController.FindByEmailUnique | backend/src/controllers/authController.js:33-36 | with emails unique, the user found for an email is the one row holding it |
| AuthController.UserIdsDistinct | backend/src/controllers/authController.js:42-47 | two users are never given the same id |
| CreateRecipeForm.AddIngredient | frontend/src/pages/CreateRecipe.jsx:57-62 | appends `{name:'', quantity:'', unit:'cup'}` and keeps the existing rows |
| CreateRecipeForm.RemoveIngredient | frontend/src/pages/CreateRecipe.jsx:64-69 | removes exactly the row at `index` and keeps the others in order; an index naming no row removes nothing |
| CreateRecipeForm.ChangeIngredient | frontend/src/pages/CreateRecipe.jsx:51-55 | only the given field of the row at `index` takes the value; every other row and field is unchanged |
| CreateRecipeForm.WithField | frontend/src/pages/CreateRecipe.jsx:53 | writing one field of an entry leaves the other two as they were |
| CreateRecipeForm.ChangeIsPointwise | frontend/src/pages/CreateRecipe.jsx:51-55 | the method's result is the list with that one row replaced |
| CreateRecipeForm.EditingKeepsARow | frontend/src/pages/CreateRecipe.jsx:361 | with the remove button shown only for more than one row, no sequence of edits empties a non-empty list |
| CreateRecipeForm.FormAlwaysHasARow | frontend/src/pages/CreateRecipe.jsx:26 | starting from the form's single blank row, the list is never empty |
| CreateRecipeForm.SubmittedIngredients | frontend/src/pages/CreateRecipe.jsx:147 | every submitted row is a row of the list with a non-blank name, and every such row is submitted |
| CreateRecipeForm.SubmittedKeepsOrder | frontend/src/pages/CreateRecipe.jsx:147 | the filter keeps the rows in their original order |
| CreateRecipeForm.SubmittedCounts | frontend/src/pages/CreateRecipe.jsx:147 | a named row is submitted as often as it occurs, a blank one never |
| CreateRecipeForm.NoneSubmittedIffAllBlank | frontend/src/pages/CreateRecipe.jsx:102-105 | nothing is submitted exactly when every name is blank |
| CreateRecipeForm.BlankRowIsNotSubmitted | frontend/src/pages/CreateRecipe.jsx:57-62 | an added row left blank does not change the payload |
| CreateRecipeForm.ValidateRecipeForm | frontend/src/pages/CreateRecipe.jsx:96-109 | title, description and ingredients errors are set exactly for a blank title, a blank description and no named row, with their messages and no other key; valid exactly when no error was set |
| CreateRecipeForm.RecipeFormValid | frontend/src/pages/CreateRecipe.jsx:99-105 | the form may be posted exactly when title and description are not blank and a named row exists |
| CreateRecipeForm.PhotoChange | frontend/src/pages/CreateRecipe.jsx:71-94 | no file changes nothing; over 5 MB gives the size error before the type is looked at; a type other than JPEG, PNG or WebP gives the type error; a rejected file leaves the kept file; an accepted file is kept and clears the photo error; no other error changes |
| CreateRecipeForm.PhotoChangeKeepsInvariant | frontend/src/pages/CreateRecipe.jsx:71-94 | the kept file has always passed both checks |
| CreateRecipeForm.PhotoSizeBoundary | frontend/src/pages/CreateRecipe.jsx:75-78 | exactly 5 MB with an accepted type is kept; one byte more gets the size error whatever the type |
| CreateRecipeForm.GifIsRefused | frontend/src/pages/CreateRecipe.jsx:81-84 | a GIF within the size limit gets the type error |
| RegisterForm.ValidateRegistration | frontend/src/pages/Register.jsx:20-49 | first and last name are each required after trimming; a blank email gets "Email is required" and any other non-matching email "Please enter a valid email"; an empty password gets "Password is required" and one under 8 characters the length error; a differing confirmation gets its own error; no other key; valid exactly when no error was set |
| RegisterForm.RegistrationValid | frontend/src/pages/Register.jsx:23-45 | the form may be posted exactly when both names are present, the email matches, the password has 8 or more characters and the confirmation equals it |
| RegisterForm.EmailShapedIffPattern | frontend/src/pages/Register.jsx:33 | the pattern `^[^\s@]+@[^\s@]+\.[^\s@]+$` holds exactly when there is no white space, exactly one `@` that is not first, and a `.` in the domain that is neither its first nor its last character |
| RegisterForm.BlankIsNoEmail | frontend/src/pages/Register.jsx:31-35 | a blank email never matches, so the "required" message is the only email error it can get |
| RegisterForm.ShortestEmail | frontend/src/pages/Register.jsx:33 | `a@b.c` matches |
| RegisterForm.DotOpeningDomain | frontend/src/pages/Register.jsx:33 | `a@.c` does not match |
| RegisterForm.DotClosingDomain | frontend/src/pages/Register.jsx:33 | `a@bc.` does not match |
| RegisterForm.TwoAtSigns | frontend/src/pages/Register.jsx:33 | `a@b@c.d` does not match |
| RegisterForm.SpaceInLocalPart | frontend/src/pages/Register.jsx:33 | `a b@c.d` does not match |
| RegisterForm.Wording | frontend/src/pages/Register.jsx:23-45 | each error has the page's wording, and only a cleared error is the empty text |
| RegisterForm.HandleChange | frontend/src/pages/Register.jsx:51-64 | only the named input takes the value; only that input's error is emptied, and only if it was set; no error key is added or removed |
| RegisterForm.HandleChangeIdempotent | frontend/src/pages/Register.jsx:51-64 | typing the same text twice leaves the state as typing it once |
| SubmitFlow.RecipePayload | frontend/src/pages/CreateRecipe.jsx:137-148 | the posted body carries the form's title, description, servings, times, difficulty, category and visibility flag as they are, exactly the named ingredient rows in order, and the photo URL or null |
| SubmitFlow.CheckboxSetsVisibility | backend/src/controllers/recipeController.js:157 | a recipe created from the page is stored public exactly when its visibility box was checked |
| SubmitFlow.ValidFormPassesCreateChecks | backend/src/controllers/recipeController.js:138-144 | a form the page validates passes both 400 checks of `createRecipe`, and every ingredient row stored from it has a name |
| SubmitFlow.NoPhotoStoresNoUrl | backend/src/controllers/recipeController.js:156 | a recipe posted without a photo is stored with a null photo URL |
| SubmitFlow.KeptPhotoIsUploaded | backend/src/services/photoService.js:23-29 | a non-empty file the picker keeps passes both size guards of the upload service |
| SubmitFlow.ValidRegistrationHasRequiredFields | backend/src/controllers/authController.js:18-20 | a registration form the page validates never gets "Missing required fields" |

## Left out

- `toFixed(1)`: the handlers send the average as text with one decimal, but 0 as a number. The model keeps the exact mean sum/count, with 0 for no reviews; binary rounding of the text is not modelled.
- The embedded `users(...)` columns of the listings and reviews: they are display data read from another table and play no part in the handlers' logic.
- `RecipeModel.getById` and `UserModel.findById` use `.single()`, which makes the call throw when no row matches. Seen end to end, the 404 branches of the recipe handlers and of the current-user lookup then become 500 replies. The model gives the lookup an `Option` result and keeps the 404 branches as the handlers write them.
- RecipeController.RecipeStore.GetAllRecipes, RecipeController.RecipeStore.GetUserRecipes and RecipeController.RecipeStore.GetRecipeReviews require `page` and `limit` to be at least 1. Their `?page=`/`?limit=` text is taken as already parsed to whole numbers. Zero, negative, fractional and non-numeric values, and PostgREST's reply for a range past the end, are not modelled. The defaults of 1 and 12 (or 10) are the caller's to supply.
- The range end of the three paginated handlers is computed with `limit` as a number, as the handlers evidently intend. The text concatenation that actually happens is exhibited separately under Findings.
- The `%` and `_` wildcards of `ilike`, and filter-syntax characters in the search text: the search is a plain substring test with ASCII case folding only.
- RecipeController.RecipeStore.CreateRecipe and RecipeController.RecipeStore.UpdateRecipe: recipe and review ids are the store counters `nextRecipeId` and `nextReviewId`, numbered in insertion order, where the tables generate random UUIDs. The handlers use ids only to look rows up, so only their distinctness matters.
- RecipeController.RecipeStore.CreateRecipe and RecipeController.RecipeStore.UpdateRecipe: the body's text and number fields are JSON strings or missing/null. A JSON number cannot be represented: for example, an update with the number `servings: 0` is falsy and keeps the stored value, while the text "0" writes 0. `isPublic` is a JSON boolean, null or missing; other JSON values are not modelled.
- RecipeController.RecipeStore.AddReview: the rating is a JSON number. A rating sent as text, or as another JavaScript value, is not modelled.
- Server errors: every `catch` that answers 500, and a failing recipe insert. The ingredient insert's outcome is the `ingredientsStored` parameter, because the handlers ignore its error.
- Other external effects: logging, the storage bucket's cache settings, `upsert: false`, and the multer upload middleware's own type and size checks.
- The server-side email and password validators (`utils/validators.js`), bcrypt hashing and comparison, and JWT signing and verification are not part of this model. They enter as the function-typed fields of `AuthController.Crypto`, and the caller's id as a parameter in place of a verified token.
- AuthController.UserIdOf: users get database-generated UUIDs; the model numbers them in registration order, which keeps the one property used, that ids are distinct.
- Logout, and every handler outside the five files above.
- Time and randomness: `created_at` is a `now` parameter, and the photo key's `uuidv4()` is a `uuid` parameter.
- Concurrency between requests, and the non-atomic sequence of writes inside one handler.
- The photo picker's `FileReader` preview, the page's loading and success messages, navigation and the `setTimeout` redirects.
- `handleInputChange` of the recipe page. It is the same one-field update with error clearing as the registration page's change handler, which is modelled.
- CreateRecipeForm.ChangeIngredient: the source's copy is shallow, so the write also lands in the entry object the previous state still holds. The model copies values, so this aliasing is not represented; it changes nothing the page shows.
- The registration page's `submit` error, set when the server refuses the form. It belongs to the submit handler, which is outside this model.
- RegisterForm.HandleChange: error texts are `Message` values whose text is given by `Wording`. The emptied entry is the constructor `Cleared`, whose wording is `''`.
- RegisterForm.ValidateRegistration: `password.length` counts UTF-16 code units, while the model counts Unicode characters. The two differ only for characters outside the Basic Multilingual Plane.

## Findings

| source | as written | input that shows it | evidently intended | confidence | as-written member | corrected member |
|---|---|---|---|---|---|---|
| backend/src/controllers/recipeController.js:30-31 (also 66-71 and 325-330) | `offset + limit - 1`, where `limit` is the query-string text: `+` joins `offset` and `limit` as text and `- 1` then reads the result back as a number | `GET /api/recipes?page=2&limit=12`: offset is 12, the range end is "1212" - 1 = 1211, and page 2 of 30 matches returns 18 rows instead of 12 | the range end `offset + limit - 1` computed on numbers, so that every page holds at most `limit` rows | not executed | Query.SecondPageFromText | Query.PageBounds |
