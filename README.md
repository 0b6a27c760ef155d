# Foodgram backend core in Dafny

This project models the rule-bearing core of the Foodgram recipe backend. Foodgram is a Django REST service. Users publish recipes made of ingredients and tags, follow authors, keep favourites and a shopping cart, and download a summed shopping list. The model covers:

- **Recipe validation.** `RecipeValidatorMixin` is module `Mixins`. The older `RecipePostSerializer` validators are module `Serializers`. Each validator accepts its input unchanged or reports the error of the first offending element. The two define "duplicate ingredient" differently, and `Serializers.DuplicateNotionsDiffer` proves it: the mixin compares whole `{id, amount}` entries, the serializer compares ingredient identity.
- **The username validator** (`UsersValidators`). It accepts exactly the names made only of characters of the `REGEX_USERNAME` class. The error lists each offending character once.
- **The permission rule** `NotMeOrReadOnly.has_permission` (`Permissions`).
- **The database schema.** The uniqueness constraints, foreign keys, value bounds and cascades of `recipes/models.py` and `users/models.py` are predicates in `RecipesModels` and `UsersModels`, with lemmas showing that the cascades keep them.
- **The store** (`Storage.Store`), a class whose fields are the tables. Its methods are the operations that change those tables:
  - recipe create and update (`create_ingredients`, `tags.set`, `ingredients.clear`);
  - subscribe and unsubscribe;
  - favourite and cart add and remove;
  - recipe and user deletion with cascades.

  Every method keeps `Valid()`, which is what the database enforces: the unique constraints, the foreign keys and the non-negative CHECK of the positive integer fields. Each method states the whole new state of the fields it may modify. `DeclaredValidatorsHold()` is what the field validators demand and the database does not check: the bounds of cooking times and amounts, and `validator_username` on every username. It is preserved whenever the inputs respect it.
- **The shopping-list download** (`Views.DownloadShoppingCart`). It is a loop that appends one text line per ingredient group to a header. Lemmas prove four things about the text:
  - it has exactly one line per distinct ingredient of the cart's recipes;
  - the listed amounts are the per-ingredient sums;
  - those sums add up to the cart's total;
  - an empty cart yields the header alone.
- **`get_serializer_class`**, `get_is_subscribed`, and the unsubscribe decision (see Findings).

Identifiers are unbounded integers. Tables with unique constraints are sequences paired with a distinctness invariant, or maps keyed by primary key. Errors are `Result` values; the module that owns each operation declares its error datatype.

In these respects the model follows the code as written:

- **Permissions.** `RecipeViewSet` uses `IsAuthenticatedOrReadOnly` and has no author check. Any authenticated user may update or delete any recipe, and `perform_update` makes the editor the author. `UpdateRecipe` and `DeleteRecipe` take no owner check, and `UpdateRecipe` sets the author to the editor.
- **Atomicity.** Recipe create and update run without a transaction. When a junction row is refused, the recipe row, its tags and the rows inserted before the failure stay. The contracts say so.
- **Shopping-list content.** The list has no `order_by`, so its line order is a parameter, `order`. It is plain text with a header and is not paginated.
- **Duplicates in the mixin.** The mixin's duplicate test compares whole entries, so the same ingredient id with two different amounts is accepted (`Mixins.SameIdTwoAmountsAccepted`).
- **Duplicate cart entries.** Adding a cart entry that already exists raises the database's uncaught `IntegrityError`. The model reports it as `IntegrityError`.

## Model

| member | source | states |
|---|---|---|
| UsersValidators.Leftover | backend/foodgramm_backend/users/validators.py:9 | what removing every match of the character class leaves: exactly the characters of the name outside the class, never longer than the name |
| UsersValidators.ValidatorUsername | backend/foodgramm_backend/users/validators.py:8-12 | accepts if and only if every character is allowed; on acceptance returns the name unchanged; on rejection the error carries exactly the set of disallowed characters, which is non-empty |
| UsersValidators.JoinWithSpaces | backend/foodgramm_backend/users/validators.py:9 | `" ".join`: characters at even positions, single spaces between them, length 2n-1 |
| UsersValidators.ErrorMessage | backend/foodgramm_backend/users/validators.py:11 | the message is the fixed prefix followed by the offending characters, in the given enumeration order, joined by spaces |
| UsersValidators.MessageCountsOffending | backend/foodgramm_backend/users/validators.py:9-11 | any enumeration of the offending set for the message lists each offending character exactly once |
| UsersValidators.EmptyNameAccepted | backend/foodgramm_backend/users/validators.py:9-12 | the empty name is accepted |
| UsersValidators.SameCharactersSameVerdict | backend/foodgramm_backend/users/validators.py:9 | two names with the same set of characters get the same verdict and the same error: order and multiplicity do not matter |
| UsersValidators.UsernameExamples | backend/foodgramm_backend/users/validators.py:8-12 | "john_doe-99" is accepted; "john doe!" is rejected with offending set {' ', '!'} |
| Permissions.HasPermission | backend/foodgramm_backend/api/permissions.py:6-12 | anonymous requests to /api/users/me/ are denied; authenticated requests are allowed; anonymous requests elsewhere are allowed exactly for GET, HEAD and OPTIONS |
| Permissions.DenialsAreAnonymous | backend/foodgramm_backend/api/permissions.py:7-12 | every denied request is anonymous, and outside /api/users/me/ it uses an unsafe method |
| Permissions.AnonymousReadsAllowedOutsideMe | backend/foodgramm_backend/api/permissions.py:9-12 | safe methods are allowed anonymously outside /api/users/me/, POST is not, and GET on /api/users/me/ is not |
| Mixins.Validate | backend/foodgramm_backend/api/mixins.py:17-22 | missing or empty ingredients give NO_INGREDIENTS_ERROR, checked before tags; then missing or empty tags give NO_TAGS_ERROR; otherwise the data is returned unchanged (both directions) |
| Mixins.EntryFault | backend/foodgramm_backend/api/mixins.py:29-34 | definition: the per-entry checks in order: unknown id, then amount below 1, then an entry equal to an earlier one |
| Mixins.CleanIffAcceptable | backend/foodgramm_backend/api/mixins.py:28-35 | the entry-by-entry checks pass on every entry exactly when all ids exist, all amounts are at least 1 and the entries are pairwise distinct |
| Mixins.ValidateIngredients | backend/foodgramm_backend/api/mixins.py:24-36 | succeeds, returning its input unchanged, exactly when the list is non-empty and acceptable; an empty list gives NO_INGREDIENTS_ERROR; otherwise the error is the first fault (unknown id, then amount below 1, then whole-entry duplicate) of the first faulty entry |
| Mixins.ValidateTags | backend/foodgramm_backend/api/mixins.py:38-46 | succeeds, returning the tags unchanged, exactly for non-empty lists without repeats; NO_TAGS_ERROR for the empty list, DUPLICATE_TAG_ERROR otherwise |
| Mixins.SameIdTwoAmountsAccepted | backend/foodgramm_backend/api/mixins.py:33 | two entries with the same id and different amounts are not duplicates |
| Mixins.RepeatedEntryIsDuplicate | backend/foodgramm_backend/api/mixins.py:33-34 | an entry repeated verbatim passes the first time and gives DUPLICATE_INGREDIENT_ERROR the second time |
| Serializers.ValidateAmount | backend/foodgramm_backend/api/serializers.py:107-112 | accepts exactly positive amounts and returns them unchanged; otherwise 'Количество должно быть больше 0' |
| Serializers.ValidateCookingTime | backend/foodgramm_backend/api/serializers.py:150-154 | accepts exactly cooking times of at least 1 and returns them unchanged |
| Serializers.ValidateIngredientsField | backend/foodgramm_backend/api/serializers.py:156-164 | succeeds, returning its input unchanged, exactly for non-empty lists whose amounts are all at least 1; the empty list and a small amount give their two errors |
| Serializers.PostFault | backend/foodgramm_backend/api/serializers.py:134-139 | definition: the per-entry checks in order: unknown id, then an ingredient already resolved |
| Serializers.PostCleanIffResolve | backend/foodgramm_backend/api/serializers.py:133-139 | the ingredient loop passes every entry exactly when every id resolves and no ingredient id repeats |
| Serializers.ValidatePost | backend/foodgramm_backend/api/serializers.py:130-148 | a missing ingredients key fails first; then the first unknown ingredient gives not-found and the first repeated ingredient gives 'Такой ингридиент уже есть'; after the ingredient checks, a missing tags key fails, empty tags give 'Нужен тег' and the first unnamed tag gives its error; otherwise the data is returned unchanged |
| Serializers.StoredTagsAreNamed | backend/foodgramm_backend/api/serializers.py:144-147 | tags resolved from the tag table always pass the per-tag name check |
| Serializers.DistinctIdsImpliesDistinctEntries | backend/foodgramm_backend/api/serializers.py:136-139 | the serializer's duplicate test is stricter than the mixin's: distinct ids imply distinct entries |
| Serializers.DuplicateNotionsDiffer | backend/foodgramm_backend/api/serializers.py:136-139 | [(1,2),(1,3)] is accepted by the mixin and rejected by the serializer with 'Такой ингридиент уже есть' |
| Serializers.ValidateFollow | backend/foodgramm_backend/api/serializers.py:60-77 | accepts exactly a pair that is not yet a follow and is not a self-follow; an existing pair gives 'Вы уже подписаны…' before the self check, a self-follow gives 'Нельзя подписаться себя' |
| Serializers.AcceptedFollowKeepsTableValid | backend/foodgramm_backend/api/serializers.py:64-77 | an accepted follow keeps the Follow table duplicate-free with valid references, and is never a self-follow |
| Serializers.IsSubscribed | backend/foodgramm_backend/api/serializers.py:28-32 | false for an anonymous request; otherwise true exactly when the (requester, obj) edge exists |
| UsersModels.UsersUnique | backend/foodgramm_backend/users/models.py:11-23 | definition: no two users share a username, and no two share an email (both `unique=True`) |
| UsersModels.UsernamesValid | backend/foodgramm_backend/users/models.py:17 | definition: every stored username passes `validator_username` (the field's `validators`, checked by serializers and forms, not by the database) |
| UsersModels.FollowsValid | backend/foodgramm_backend/users/models.py:43-53 | definition: at most one Follow per (user, author) and both ends are stored users; `user == author` is not excluded |
| UsersModels.SelfFollowIsStorable | backend/foodgramm_backend/users/models.py:43-53 | the Follow table's own constraints admit a self-follow |
| UsersModels.FollowersOf | backend/foodgramm_backend/api/views.py:56 | `Follow.objects.filter(author=…)`: exactly the author's follow rows |
| UsersModels.FollowsAfterUserDelete | backend/foodgramm_backend/users/models.py:45-46 | the follows left after a user is deleted: exactly those in which the user is neither follower nor author |
| UsersModels.UserDeleteKeepsFollowsValid | backend/foodgramm_backend/users/models.py:45-53 | that cascade keeps the Follow table unique with references into the remaining users |
| RecipesModels.TagSlugsUnique | backend/foodgramm_backend/recipes/models.py:19-20 | definition: no two tags share a slug |
| RecipesModels.IngredientsUnique | backend/foodgramm_backend/recipes/models.py:42-45 | definition: no two ingredients share (name, measurement_unit) |
| RecipesModels.RecipesUnique | backend/foodgramm_backend/recipes/models.py:78-81 | definition: no two recipes share (name, author) |
| RecipesModels.CookingTimesStorable | backend/foodgramm_backend/recipes/models.py:61 | definition: every stored cooking time is non-negative, the CHECK of a PositiveSmallIntegerField |
| RecipesModels.RecipesLinked | backend/foodgramm_backend/recipes/models.py:54-71 | definition: every recipe's author is a stored user and its tags are stored tags (the foreign key and the many-to-many to Tag) |
| RecipesModels.JunctionValid | backend/foodgramm_backend/recipes/models.py:87-107 | definition: at most one row per (recipe, ingredient), both ends stored, and the amount non-negative |
| RecipesModels.EdgesValid | backend/foodgramm_backend/recipes/models.py:113-146 | definition: at most one Best (or ShopCart) edge per (user, recipe), both ends stored |
| RecipesModels.RowsOutside | backend/foodgramm_backend/recipes/models.py:92-93 | the junction rows left after deleting recipes: exactly those of other recipes |
| RecipesModels.EdgesOutside | backend/foodgramm_backend/recipes/models.py:116-117 | the favourite or cart edges left after deleting recipes and possibly a user: exactly those naming neither |
| RecipesModels.RecipeDeleteKeepsJunctionValid | backend/foodgramm_backend/recipes/models.py:87-107 | the junction cascade keeps one row per (recipe, ingredient) and valid references |
| RecipesModels.DeleteKeepsEdgesValid | backend/foodgramm_backend/recipes/models.py:113-146 | the Best and ShopCart cascades keep one edge per (user, recipe) and valid references |
| RecipesModels.AppendRowKeepsJunctionValid | backend/foodgramm_backend/recipes/models.py:103-107 | a row for a free (recipe, ingredient) pair can be added without breaking the junction's uniqueness |
| RecipesModels.RecipeDeleteKeepsRecipesValid | backend/foodgramm_backend/recipes/models.py:70-81 | deleting recipes, or a user together with all their recipes, keeps (name, author) unique and every author a user |
| RecipesModels.EdgesValidAppend | backend/foodgramm_backend/recipes/models.py:126-146 | a new edge between stored rows can be added without breaking the (user, recipe) uniqueness |
| Collections.WithoutAppend | backend/foodgramm_backend/api/views.py:113-116 | removing an edge that was just added restores the table, so add followed by remove is the identity |
| Views.GetSerializerClass | backend/foodgramm_backend/api/views.py:79-86 | list and retrieve map to the Get serializer, favorite and shopping_cart to theirs, every other action to RecipeSerializer (each both directions) |
| Views.CartRecipes | backend/foodgramm_backend/api/views.py:157-158 | the recipes of the user's cart: exactly those with a (user, recipe) cart edge |
| Views.BuyListKeys | backend/foodgramm_backend/api/views.py:159-163 | definition: the groups of `values('ingredient')`: the ingredients of the junction rows of the cart's recipes |
| Views.AmountFor | backend/foodgramm_backend/api/views.py:159-165 | definition: `Sum('amount')` of one group: the sum of the amounts of the cart recipes' rows for that ingredient |
| Views.Line | backend/foodgramm_backend/api/views.py:170-173 | definition: one line of the list, `name, amount unit` followed by a newline |
| Views.NatToStringRoundTrip | backend/foodgramm_backend/api/views.py:171 | the decimal rendering of an amount reads back as the amount |
| Views.IntToString | backend/foodgramm_backend/api/views.py:171 | the rendering of any integer has no newline and is the decimal digits with a sign when negative |
| Views.DownloadShoppingCart | backend/foodgramm_backend/api/views.py:154-178 | the text is 'Foodgram\nСписок покупок:\n' followed by one "name, amount unit\n" line per grouped ingredient with its summed amount; an empty cart gives the header alone |
| Views.AppendLines | backend/foodgramm_backend/api/views.py:167-173 | the loop appends, to the text it starts from, one line per group in order with that group's summed amount |
| Views.EmptyCartHasNoGroups | backend/foodgramm_backend/api/views.py:157-165 | an empty cart has no ingredient groups |
| Views.HeaderHasTwoLines | backend/foodgramm_backend/api/views.py:166 | the header is two lines |
| Views.LineIsOneLine | backend/foodgramm_backend/api/views.py:170-173 | each ingredient line is exactly one line when names and units have no newline |
| Views.LinesCount | backend/foodgramm_backend/api/views.py:167-173 | the lines part has exactly one line per listed ingredient |
| Views.ShoppingListHasOneLinePerIngredient | backend/foodgramm_backend/api/views.py:157-173 | the whole text has 2 + k lines, k being the number of distinct ingredients in the cart's recipes |
| Views.GroupedSumsAddUp | backend/foodgramm_backend/api/views.py:159-165 | summing the per-ingredient groups gives the total of all the cart rows' amounts |
| Views.ShoppingListTotals | backend/foodgramm_backend/api/views.py:157-165 | for the user's cart, the listed amounts add up to the cart's total amount |
| Views.GroupAmounts | backend/foodgramm_backend/api/views.py:159-165 | with amounts of at least 1, an ingredient is listed exactly when its summed amount is positive |
| Views.ShoppingListExample | backend/foodgramm_backend/api/views.py:154-173 | flour 200+100, egg 2, milk 1 over two cart recipes group to flour 300, egg 2, milk 1 |
| Views.UnfollowAsWritten | backend/foodgramm_backend/api/views.py:52-60 | the unsubscribe as written: not-found without the edge; with it, success only when the author has exactly one follower, otherwise the lookup fails |
| Views.Unfollow | backend/foodgramm_backend/api/views.py:52-60 | the intended unsubscribe: succeeds exactly when the edge exists and removes that edge and no other; not-found otherwise |
| Views.UnfollowAsWrittenIsPartial | backend/foodgramm_backend/api/views.py:55-56 | wherever the code as written succeeds it agrees with the intended unsubscribe, and both fail alike without the edge |
| Views.UnfollowWithTwoFollowers | backend/foodgramm_backend/api/views.py:56 | with followers 1 and 2 of author 3, user 1's unsubscribe fails as written and succeeds as intended |
| Views.FollowThenUnfollow | backend/foodgramm_backend/api/views.py:39-60 | an accepted subscribe followed by the unsubscribe restores the Follow table |
| Storage.RowsFor | backend/foodgramm_backend/api/serializers.py:166-171 | definition: one junction row per entry, in order, carrying that entry's ingredient id and amount |
| Storage.HasSlotAfterRows | backend/foodgramm_backend/recipes/models.py:103-107 | after inserting rows for entries, a (recipe, ingredient) pair is taken exactly when it was before or some entry names that ingredient |
| Storage.FaultBlocksInsertion | backend/foodgramm_backend/api/serializers.py:166-171 | a row the database refuses means the entries were not all insertable |
| Storage.Refused | backend/foodgramm_backend/api/serializers.py:168-171 | definition: the database refuses the row for an entry: unknown ingredient, negative amount, or a (recipe, ingredient) pair that already has a row |
| Storage.StopPointUnique | backend/foodgramm_backend/api/serializers.py:166-171 | at most one entry is where `create_ingredients` stops: the stopping point is the first refused entry |
| Storage.PrefixNotRefused | backend/foodgramm_backend/api/serializers.py:166-171 | inside an insertable prefix no entry is refused |
| Storage.InsertionStep | backend/foodgramm_backend/api/serializers.py:166-171 | a row it accepts extends the insertable prefix by that entry and its row |
| Storage.InsertRows | backend/foodgramm_backend/api/serializers.py:166-171 | the loop of `create_ingredients` on the junction rows: the result is the old rows plus one row per entry of an insertable prefix; when it stops early, the entry after that prefix is refused (unknown ingredient, negative amount or a taken (recipe, ingredient) pair), so it stops at the first refused entry; it has every entry exactly when the entries are insertable, and it keeps the junction constraints and the amount bounds |
| Storage.TagSet | backend/foodgramm_backend/api/serializers.py:177 | definition: `tags.set`: the recipe's tags are exactly the submitted ones |
| Storage.Edited | backend/foodgramm_backend/api/serializers.py:189-190 | definition: given fields replace the stored ones, the others stay, the tags stay, and the editor becomes the author |
| Storage.AuthoredBy | backend/foodgramm_backend/recipes/models.py:70-71 | definition: the recipes that go with a deleted user: exactly the ones they wrote |
| Storage.TablesValid | backend/foodgramm_backend/recipes/models.py:14-146 | definition: every constraint the database enforces over all tables at once: the unique constraints, the foreign keys and the non-negative checks |
| Storage.BoundsHold | backend/foodgramm_backend/recipes/models.py:61-101 | definition: every stored cooking time lies in MIN_COOKING_VALUE..MAX_COOKING_VALUE and every amount in MIN_INGREDIENT_VALUE..MAX_INGREDIENT_VALUE, as the field validators declare |
| Storage.RecipeDeleteKeepsTablesValid | backend/foodgramm_backend/recipes/models.py:87-146 | deleting a recipe with its rows and edges keeps every table constraint |
| Storage.UserDeleteKeepsTablesValid | backend/foodgramm_backend/recipes/models.py:70-117 | deleting a user with their recipes, rows, edges and follows keeps every table constraint |
| Storage.DeleteKeepsBounds | backend/foodgramm_backend/recipes/models.py:61-101 | deletions keep cooking times and amounts within the validators' bounds |
| Storage.RowsClearedKeepTablesValid | backend/foodgramm_backend/api/serializers.py:184 | `ingredients.clear()` keeps every table constraint and leaves the recipe without rows |
| Storage.RecipeInsertKeepsTablesValid | backend/foodgramm_backend/recipes/models.py:50-81 | inserting a recipe under a fresh key keeps the tables valid when its author is a user, its tags are stored, its cooking time is not negative and its (name, author) is free; no junction row refers to the new key |
| Storage.RecipeReplaceKeepsTablesValid | backend/foodgramm_backend/recipes/models.py:78-81 | replacing a recipe's row keeps the tables valid when its author is a user, its tags are stored, its cooking time is not negative and no other recipe has its (name, author) |
| Storage.NameTakenIgnoresOwnRow | backend/foodgramm_backend/recipes/models.py:78-81 | whether another recipe holds (name, author) does not depend on the updated recipe's own row |
| Storage.RetagKeepsNameFree | backend/foodgramm_backend/api/serializers.py:186-188 | re-tagging a recipe cannot clash with the (name, author) constraint |
| Storage.ReplaceKeepsBounds | backend/foodgramm_backend/recipes/models.py:61-69 | replacing a recipe's row with an in-bounds cooking time keeps the bounds |
| Storage.Store.Valid | backend/foodgramm_backend/recipes/models.py:14-146 | definition: the store's tables satisfy TablesValid, kept by every method |
| Storage.Store.DeclaredValidatorsHold | backend/foodgramm_backend/recipes/models.py:61-101 | definition: the field validators' bounds hold and every username passes `validator_username` (users/models.py:17) |
| Storage.Store.AddFavorite | backend/foodgramm_backend/api/serializers.py:222-234 | missing recipe: not-found; existing (user, recipe): 'Уже в избранном'; otherwise exactly that Best edge is appended; nothing else changes and the tables stay valid |
| Storage.Store.AddToCart | backend/foodgramm_backend/api/serializers.py:237-245 | missing recipe: not-found; existing edge: the uncaught IntegrityError; otherwise exactly that ShopCart edge is appended |
| Storage.Store.RemoveFavorite | backend/foodgramm_backend/api/views.py:113-120 | missing recipe or edge: not-found and no change; otherwise exactly that Best edge is removed |
| Storage.Store.RemoveFromCart | backend/foodgramm_backend/api/views.py:140-147 | missing recipe or edge: not-found and no change; otherwise exactly that ShopCart edge is removed |
| Storage.Store.Subscribe | backend/foodgramm_backend/api/views.py:39-50 | missing user or author: not-found; a rejected follow leaves the table unchanged; otherwise exactly Follow(user, author) is appended, after which the user is subscribed and is not the author |
| Storage.Store.Unsubscribe | backend/foodgramm_backend/api/views.py:52-60 | missing author or edge: not-found and no change; otherwise exactly that edge is removed; afterwards the user is not subscribed |
| Storage.Store.CreateIngredients | backend/foodgramm_backend/api/serializers.py:166-171 | rows are inserted in entry order; when not all are inserted, insertion stopped exactly at the first refused entry; all are inserted exactly when every ingredient exists, no amount is negative and no (recipe, ingredient) pair repeats or already exists |
| Storage.Store.CreateRecipe | backend/foodgramm_backend/api/serializers.py:173-179 | a taken (name, author) or a negative cooking time gives IntegrityError with no change; otherwise the recipe gets the next key with exactly the submitted tags, and either one row per entry, or IntegrityError with the rows of the entries before the first refused one |
| Storage.Store.ReplaceIngredients | backend/foodgramm_backend/api/serializers.py:182-185 | the recipe's rows are replaced by rows for the entries before the first refused one, all of them exactly when the entries are insertable |
| Storage.Store.UpdateRecipe | backend/foodgramm_backend/api/serializers.py:181-190 | missing recipe: not-found; rows are replaced only when ingredients are given, tags only when tags are given; a refused row fails with the rows of the entries before the first refused one and the fields unchanged; a (name, author) clash or a negative cooking time keeps the new rows and tags and fails |
| Storage.Store.Retag | backend/foodgramm_backend/api/serializers.py:186-188 | only the recipe's tags change, to exactly the given set |
| Storage.Store.SaveFields | backend/foodgramm_backend/api/serializers.py:189-190 | another recipe with that (name, author), or a negative cooking time, gives IntegrityError with no change; otherwise the recipe becomes the edited row |
| Storage.Store.DeleteRecipe | backend/foodgramm_backend/recipes/models.py:87-146 | deleting a recipe removes exactly its junction rows, favourites and cart entries; a missing recipe is not-found |
| Storage.Store.DeleteUser | backend/foodgramm_backend/recipes/models.py:70-71 | deleting a user removes them, their recipes, every row and edge of those recipes or of the user, and every follow naming them |

## Left out

- HTTP plumbing is not modelled: `Response` and status codes, `HttpResponse` headers, routing in `api/urls.py`, and djoser authentication and tokens. Errors are `Result` values, and authentication is a requirement that the acting user exists.
- `Base64ImageField` and the recipe image are not modelled. They are a foreign library and binary decoding.
- The admin modules, the CSV loader and the migrations are not modelled. They are UI, file I/O and schema history.
- `api/filters.py` is not modelled. It delegates to django_filters and Unicode case folding.
- `SubscriptionSerializer.get_recipes` is not modelled. Its limit branch calls `int('recipes_limit')` on a literal string and always fails there.
- Concurrent requests and races on unique constraints are not modelled. Each method is one request in isolation.
- The module-level imports do not resolve: `UsernameVilidatorMixin`, `RecipeSerializer` and `UserSubscribeAPIView` are named but never defined. The model keeps each file's logic as written. `Views.GetSerializerClass` returns the name `RecipeSerializer` as a token.
- UsersValidators.Leftover: `REGEX_USERNAME` is taken to be a character class, so `re.sub` removes each allowed character separately. An anchored pattern such as `^[\w.@+-]+\Z` would leave an invalid name whole, and the error would list every character of it. The pattern is defined in a constants module that is not part of this model.
- `REGEX_USERNAME`, `MAX_COOKING_VALUE`, `MAX_INGREDIENT_VALUE` and the api error constants come from constants modules that are not part of this model. They are parameters or distinct datatype constructors.
- The 32767 ceiling of `PositiveSmallIntegerField` is not modelled. Amounts and cooking times are unbounded integers. The database's `amount >= 0` and `cooking_time >= 0` checks are modelled.
- `max_length` limits on character fields are not modelled.
- `Store.DeleteUser` models the cascade, not an endpoint of this code base. User deletion is reached through djoser or the admin.
- Views.DownloadShoppingCart: the database's order of the grouped rows is the parameter `order`. The requirement only states that `order` lists each ingredient group once.
- Storage.Store.DeclaredValidatorsHold: usernames are checked against the validator, but no operation here creates users, since registration is djoser's.
- Mixins.ValidateIngredients, Serializers.ValidateAmount, Serializers.ValidateCookingTime, Serializers.ValidateIngredientsField and Serializers.ValidatePost: the model takes already parsed integer ids and amounts. It leaves out the `int(...)` coercion of strings and floats, the KeyError, ValueError and TypeError raised on a missing key, `None` or a non-numeric value, and the mixin's raw-dict equality, under which `{'id': 1, 'amount': '2'}` and `{'id': 1, 'amount': 2}` differ, as do entries that differ only in an extra key.
- Serializers.ValidatePost: `Tag.objects.filter(name=tag)` is modelled as a name comparison on the resolved tag. How Django converts a model instance to a string in that lookup is not modelled.

## Findings

| source | as written | input that shows it | evidently intended | confidence | as-written member | corrected member |
|---|---|---|---|---|---|---|
| backend/foodgramm_backend/api/views.py:56 | only the (user, author) edge's existence is checked, then the edge to delete is looked up with `Follow.objects.get(author=author)` | author 3 followed by users 1 and 2, user 1 unsubscribes: `get` finds two rows and raises MultipleObjectsReturned | delete the (user, author) edge whose existence was checked | not executed | Views.UnfollowAsWritten, with counterexample Views.UnfollowWithTwoFollowers | Views.Unfollow, used by Storage.Store.Unsubscribe |
