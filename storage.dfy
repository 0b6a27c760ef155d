/** The store: the tables of recipes/models.py and users/models.py held in
    one object, and the operations of api/serializers.py and api/views.py
    that change them. `Valid` is what the database enforces (uniqueness,
    foreign keys and the non-negative CHECK of the positive integer fields);
    `DeclaredValidatorsHold` is what the field validators demand (the value
    bounds and the username validator), which only serializers and forms
    check, never the database. */
module Storage {
  import opened Wrappers
  import opened Collections
  import opened UsersModels
  import opened RecipesModels
  import opened Mixins
  import opened Serializers
  import opened Views

  /** The junction rows `create_ingredients` makes for `entries`, one per entry. */
  function RowsFor(recipe: RecipeId, entries: seq<IngredientEntry>): (rows: seq<IngredientRecipe>)
    ensures |rows| == |entries|
    ensures forall k :: 0 <= k < |entries| ==> rows[k] == IngredientRecipe(recipe, entries[k].id, entries[k].amount)
  {
    seq(|entries|, k requires 0 <= k < |entries| => IngredientRecipe(recipe, entries[k].id, entries[k].amount))
  }

  /** The entries can all be inserted for a recipe that has no rows yet:
      every ingredient exists, no amount is negative, no ingredient twice. */
  ghost predicate EntriesInsertable(ingredientIds: set<IngredientId>, entries: seq<IngredientEntry>) {
    (forall k :: 0 <= k < |entries| ==> entries[k].id in ingredientIds && entries[k].amount >= 0) && DistinctIds(entries)
  }

  /** Some stored recipe already has (name, author). */
  predicate NameTaken(recipes: map<RecipeId, Recipe>, name: string, author: UserId) {
    exists id :: id in recipes && recipes[id].name == name && recipes[id].author == author
  }

  lemma {:induction false} HasSlotAfterRows(rows: seq<IngredientRecipe>, recipe: RecipeId, entries: seq<IngredientEntry>, ingredient: IngredientId)
    ensures HasSlot(rows + RowsFor(recipe, entries), recipe, ingredient) <==>
      HasSlot(rows, recipe, ingredient) || exists j :: 0 <= j < |entries| && entries[j].id == ingredient
  {
    var t := rows + RowsFor(recipe, entries);
    if HasSlot(t, recipe, ingredient) {
      var k :| 0 <= k < |t| && t[k].recipe == recipe && t[k].ingredient == ingredient;
      if k >= |rows| {
        assert entries[k - |rows|].id == ingredient;
      }
    }
    if exists j :: 0 <= j < |entries| && entries[j].id == ingredient {
      var j :| 0 <= j < |entries| && entries[j].id == ingredient;
      assert t[|rows| + j].recipe == recipe && t[|rows| + j].ingredient == ingredient;
    }
    if HasSlot(rows, recipe, ingredient) {
      var k :| 0 <= k < |rows| && rows[k].recipe == recipe && rows[k].ingredient == ingredient;
      assert t[k] == rows[k];
    }
  }

  /** Every entry can be inserted, in order, after `rows`: the ingredient
      exists, the amount is not negative, and the (recipe, ingredient) pair
      has no row yet, neither in `rows` nor from an earlier entry. */
  ghost predicate InsertableFrom(rows: seq<IngredientRecipe>, ingredientIds: set<IngredientId>, recipe: RecipeId, entries: seq<IngredientEntry>) {
    EntriesInsertable(ingredientIds, entries) &&
    forall k :: 0 <= k < |entries| ==> !HasSlot(rows, recipe, entries[k].id)
  }

  /** The database refuses the row for `e` after `rows`: the ingredient does
      not exist, the amount is negative, or the (recipe, ingredient) pair
      already has a row. */
  predicate Refused(rows: seq<IngredientRecipe>, ingredientIds: set<IngredientId>, recipe: RecipeId, e: IngredientEntry) {
    e.id !in ingredientIds || e.amount < 0 || HasSlot(rows, recipe, e.id)
  }

  /** `create_ingredients` after `start` stops at entry `n`: the entries
      before it are all inserted, and the row for entry `n` is refused. */
  ghost predicate StopsAt(start: seq<IngredientRecipe>, ingredientIds: set<IngredientId>, recipe: RecipeId,
                          entries: seq<IngredientEntry>, n: nat) {
    n < |entries| && InsertableFrom(start, ingredientIds, recipe, entries[..n]) &&
    Refused(start + RowsFor(recipe, entries[..n]), ingredientIds, recipe, entries[n])
  }

  /** The stopping point is unique: it is the first entry refused. */
  lemma StopPointUnique(start: seq<IngredientRecipe>, ingredientIds: set<IngredientId>, recipe: RecipeId,
                        entries: seq<IngredientEntry>, n: nat, m: nat)
    requires StopsAt(start, ingredientIds, recipe, entries, n)
    requires StopsAt(start, ingredientIds, recipe, entries, m)
    ensures n == m
  {
    if n < m {
      PrefixNotRefused(start, ingredientIds, recipe, entries, n, m);
    } else if m < n {
      PrefixNotRefused(start, ingredientIds, recipe, entries, m, n);
    }
  }

  /** Within an insertable prefix of length `m`, no entry before `m` is refused. */
  lemma PrefixNotRefused(start: seq<IngredientRecipe>, ingredientIds: set<IngredientId>, recipe: RecipeId,
                         entries: seq<IngredientEntry>, n: nat, m: nat)
    requires n < m <= |entries|
    requires InsertableFrom(start, ingredientIds, recipe, entries[..m])
    ensures !Refused(start + RowsFor(recipe, entries[..n]), ingredientIds, recipe, entries[n])
  {
    assert entries[..m][n] == entries[n];
    HasSlotAfterRows(start, recipe, entries[..n], entries[n].id);
    forall j | 0 <= j < |entries[..n]| ensures entries[..n][j].id != entries[n].id {
      assert entries[..n][j] == entries[..m][j];
    }
  }

  /** A fresh recipe (no rows yet) can take exactly the insertable entries. */
  lemma FreshRecipeInsertable(rows: seq<IngredientRecipe>, ingredientIds: set<IngredientId>, recipe: RecipeId, entries: seq<IngredientEntry>)
    requires forall k :: 0 <= k < |rows| ==> rows[k].recipe != recipe
    ensures InsertableFrom(rows, ingredientIds, recipe, entries) <==> EntriesInsertable(ingredientIds, entries)
  {
  }

  /** `tags.set(...)` with these primary keys. */
  function TagSet(tagIds: seq<TagId>): (r: set<TagId>)
    ensures forall t :: t in r <==> t in tagIds
  {
    set t | t in tagIds
  }

  /** What `super().update` writes: the given fields, and the editor as author. */
  function Edited(r: Recipe, editor: UserId, name: Option<string>, text: Option<string>, cookingTime: Option<int>): (e: Recipe)
    ensures e.tags == r.tags && e.author == editor
    ensures e.name == (if name.Some? then name.value else r.name)
    ensures e.text == (if text.Some? then text.value else r.text)
    ensures e.cookingTime == (if cookingTime.Some? then cookingTime.value else r.cookingTime)
  {
    Recipe(if name.Some? then name.value else r.name,
           if text.Some? then text.value else r.text,
           if cookingTime.Some? then cookingTime.value else r.cookingTime,
           editor, r.tags)
  }

  /** A recipe other than `id` already has (name, author). */
  predicate NameTakenByOther(recipes: map<RecipeId, Recipe>, id: RecipeId, name: string, author: UserId) {
    exists o :: o in recipes && o != id && recipes[o].name == name && recipes[o].author == author
  }

  /** The recipes `u` wrote, which go with `u` (CASCADE). */
  function AuthoredBy(recipes: map<RecipeId, Recipe>, u: UserId): (r: set<RecipeId>)
    ensures forall id :: id in r <==> id in recipes && recipes[id].author == u
  {
    set id | id in recipes && recipes[id].author == u
  }

  lemma FaultBlocksInsertion(start: seq<IngredientRecipe>, ingredientIds: set<IngredientId>, recipe: RecipeId,
                             entries: seq<IngredientEntry>, i: nat)
    requires i < |entries|
    requires InsertableFrom(start, ingredientIds, recipe, entries[..i])
    requires Refused(start + RowsFor(recipe, entries[..i]), ingredientIds, recipe, entries[i])
    ensures !InsertableFrom(start, ingredientIds, recipe, entries)
  {
    HasSlotAfterRows(start, recipe, entries[..i], entries[i].id);
    if entries[i].id in ingredientIds && entries[i].amount >= 0 && !HasSlot(start, recipe, entries[i].id) {
      // the clash is with an earlier entry
      var j :| 0 <= j < |entries[..i]| && entries[..i][j].id == entries[i].id;
      assert entries[j].id == entries[i].id;
    }
  }

  lemma InsertionStep(start: seq<IngredientRecipe>, ingredientIds: set<IngredientId>, recipe: RecipeId,
                      entries: seq<IngredientEntry>, i: nat)
    requires i < |entries|
    requires InsertableFrom(start, ingredientIds, recipe, entries[..i])
    requires entries[i].id in ingredientIds && entries[i].amount >= 0
    requires !HasSlot(start + RowsFor(recipe, entries[..i]), recipe, entries[i].id)
    ensures InsertableFrom(start, ingredientIds, recipe, entries[..i + 1])
    ensures RowsFor(recipe, entries[..i + 1]) == RowsFor(recipe, entries[..i]) + [IngredientRecipe(recipe, entries[i].id, entries[i].amount)]
  {
    HasSlotAfterRows(start, recipe, entries[..i], entries[i].id);
    var p := entries[..i + 1];
    assert p == entries[..i] + [entries[i]];
    forall a, b | 0 <= a < b < |p| ensures p[a].id != p[b].id {
      if b == i {
        assert p[a] == entries[..i][a];
      } else {
        assert p[a] == entries[..i][a] && p[b] == entries[..i][b];
      }
    }
  }

  /** What the database enforces over all tables: the unique constraints,
      the foreign keys, and the non-negative CHECK on cooking times (the one
      on amounts is part of JunctionValid). */
  ghost predicate TablesValid(users: map<UserId, User>, tags: map<TagId, Tag>,
                              ingredients: map<IngredientId, Ingredient>, recipes: map<RecipeId, Recipe>,
                              junction: seq<IngredientRecipe>, best: seq<UserRecipe>, cart: seq<UserRecipe>,
                              follows: seq<Follow>, next: RecipeId) {
    UsersUnique(users) &&
    TagSlugsUnique(tags) && IngredientsUnique(ingredients) && RecipesUnique(recipes) && CookingTimesStorable(recipes) &&
    RecipesLinked(recipes, users.Keys, tags.Keys, next) &&
    JunctionValid(junction, recipes.Keys, ingredients.Keys) &&
    EdgesValid(best, users.Keys, recipes.Keys) &&
    EdgesValid(cart, users.Keys, recipes.Keys) &&
    FollowsValid(follows, users.Keys)
  }

  /** Deleting a recipe and what refers to it keeps the tables valid. */
  lemma RecipeDeleteKeepsTablesValid(users: map<UserId, User>, tags: map<TagId, Tag>,
                                     ingredients: map<IngredientId, Ingredient>, recipes: map<RecipeId, Recipe>,
                                     junction: seq<IngredientRecipe>, best: seq<UserRecipe>, cart: seq<UserRecipe>,
                                     follows: seq<Follow>, next: RecipeId, id: RecipeId)
    requires TablesValid(users, tags, ingredients, recipes, junction, best, cart, follows, next)
    ensures TablesValid(users, tags, ingredients, recipes - {id}, RowsOutside(junction, {id}),
                        EdgesOutside(best, None, {id}), EdgesOutside(cart, None, {id}), follows, next)
  {
    RecipeDeleteKeepsJunctionValid(junction, recipes.Keys, ingredients.Keys, {id});
    DeleteKeepsEdgesValid(best, users.Keys, recipes.Keys, None, {id});
    DeleteKeepsEdgesValid(cart, users.Keys, recipes.Keys, None, {id});
    RecipeDeleteKeepsRecipesValid(recipes, users.Keys, tags.Keys, next, {id}, None);
  }

  /** Deleting a user with everything that CASCADEs from it keeps the tables valid. */
  lemma UserDeleteKeepsTablesValid(users: map<UserId, User>, tags: map<TagId, Tag>,
                                   ingredients: map<IngredientId, Ingredient>, recipes: map<RecipeId, Recipe>,
                                   junction: seq<IngredientRecipe>, best: seq<UserRecipe>, cart: seq<UserRecipe>,
                                   follows: seq<Follow>, next: RecipeId, u: UserId, gone: set<RecipeId>)
    requires TablesValid(users, tags, ingredients, recipes, junction, best, cart, follows, next)
    requires gone == AuthoredBy(recipes, u)
    ensures TablesValid(users - {u}, tags, ingredients, recipes - gone, RowsOutside(junction, gone),
                  EdgesOutside(best, Some(u), gone), EdgesOutside(cart, Some(u), gone),
                  FollowsAfterUserDelete(follows, u), next)
  {
    RecipeDeleteKeepsJunctionValid(junction, recipes.Keys, ingredients.Keys, gone);
    DeleteKeepsEdgesValid(best, users.Keys, recipes.Keys, Some(u), gone);
    DeleteKeepsEdgesValid(cart, users.Keys, recipes.Keys, Some(u), gone);
    UserDeleteKeepsFollowsValid(follows, users.Keys, u);
    RecipeDeleteKeepsRecipesValid(recipes, users.Keys, tags.Keys, next, gone, Some(u));
    assert (users - {u}).Keys == users.Keys - {u};
  }

  /** The field validators' bounds on every stored cooking time and amount. */
  ghost predicate BoundsHold(recipes: map<RecipeId, Recipe>, junction: seq<IngredientRecipe>, maxCooking: int, maxIngredient: int) {
    (forall id :: id in recipes ==> CookingTimeInBounds(recipes[id].cookingTime, maxCooking)) &&
    AmountsInBounds(junction, maxIngredient)
  }

  /** Deleting recipes and rows keeps the bounds of what is left. */
  lemma DeleteKeepsBounds(recipes: map<RecipeId, Recipe>, junction: seq<IngredientRecipe>, maxCooking: int, maxIngredient: int,
                          gone: set<RecipeId>)
    requires BoundsHold(recipes, junction, maxCooking, maxIngredient)
    ensures BoundsHold(recipes - gone, RowsOutside(junction, gone), maxCooking, maxIngredient)
  {
    AmountsInBoundsSubset(junction, RowsOutside(junction, gone), maxIngredient);
  }

  /** The loop of `create_ingredients` on the rows of the junction table:
      one row per entry, in order, stopping at the first row the database
      refuses; returns the rows after the loop and the number inserted. */
  method InsertRows(start: seq<IngredientRecipe>, recipeIds: set<RecipeId>, ingredientIds: set<IngredientId>,
                    recipe: RecipeId, entries: seq<IngredientEntry>, maxIngredient: int)
    returns (rows: seq<IngredientRecipe>, inserted: nat)
    requires JunctionValid(start, recipeIds, ingredientIds) && recipe in recipeIds
    ensures inserted <= |entries|
    ensures rows == start + RowsFor(recipe, entries[..inserted])
    ensures JunctionValid(rows, recipeIds, ingredientIds)
    ensures inserted == |entries| <==> InsertableFrom(start, ingredientIds, recipe, entries)
    ensures InsertableFrom(start, ingredientIds, recipe, entries[..inserted])
    ensures inserted < |entries| ==> StopsAt(start, ingredientIds, recipe, entries, inserted)
    ensures AmountsInBounds(start, maxIngredient) && (forall k :: 0 <= k < |entries| ==> AmountInBounds(entries[k].amount, maxIngredient))
      ==> AmountsInBounds(rows, maxIngredient)
  {
    rows := start;
    var i := 0;
    while i < |entries|
      invariant 0 <= i <= |entries|
      invariant rows == start + RowsFor(recipe, entries[..i])
      invariant JunctionValid(rows, recipeIds, ingredientIds)
      invariant InsertableFrom(start, ingredientIds, recipe, entries[..i])
      invariant AmountsInBounds(start, maxIngredient) && (forall k :: 0 <= k < |entries| ==> AmountInBounds(entries[k].amount, maxIngredient))
        ==> AmountsInBounds(rows, maxIngredient)
    {
      var e := entries[i];
      if Refused(rows, ingredientIds, recipe, e) {
        FaultBlocksInsertion(start, ingredientIds, recipe, entries, i);
        return rows, i;
      }
      var row := IngredientRecipe(recipe, e.id, e.amount);
      AppendRowKeepsJunctionValid(rows, recipeIds, ingredientIds, row);
      InsertionStep(start, ingredientIds, recipe, entries, i);
      rows := rows + [row];
      i := i + 1;
    }
    assert entries[..i] == entries;
    return rows, i;
  }

  /** Any valid junction may stand in for the current one. */
  lemma JunctionSwapKeepsTablesValid(users: map<UserId, User>, tags: map<TagId, Tag>,
                                     ingredients: map<IngredientId, Ingredient>, recipes: map<RecipeId, Recipe>,
                                     junction: seq<IngredientRecipe>, junction': seq<IngredientRecipe>,
                                     best: seq<UserRecipe>, cart: seq<UserRecipe>, follows: seq<Follow>, next: RecipeId)
    requires TablesValid(users, tags, ingredients, recipes, junction, best, cart, follows, next)
    requires JunctionValid(junction', recipes.Keys, ingredients.Keys)
    ensures TablesValid(users, tags, ingredients, recipes, junction', best, cart, follows, next)
  {
  }

  /** Deleting one recipe's junction rows (`instance.ingredients.clear()`) keeps the tables valid. */
  lemma RowsClearedKeepTablesValid(users: map<UserId, User>, tags: map<TagId, Tag>,
                                   ingredients: map<IngredientId, Ingredient>, recipes: map<RecipeId, Recipe>,
                                   junction: seq<IngredientRecipe>, best: seq<UserRecipe>, cart: seq<UserRecipe>,
                                   follows: seq<Follow>, next: RecipeId, id: RecipeId)
    requires TablesValid(users, tags, ingredients, recipes, junction, best, cart, follows, next)
    ensures TablesValid(users, tags, ingredients, recipes, RowsOutside(junction, {id}), best, cart, follows, next)
    ensures forall k :: 0 <= k < |RowsOutside(junction, {id})| ==> RowsOutside(junction, {id})[k].recipe != id
  {
    RecipeDeleteKeepsJunctionValid(junction, recipes.Keys, ingredients.Keys, {id});
    JunctionWidens(RowsOutside(junction, {id}), recipes.Keys - {id}, ingredients.Keys, recipes.Keys);
    RowsOutsideLeavesNone(junction, {id});
  }

  /** Overwriting a stored recipe's row keeps the tables valid when its
      author is a user, its tags are stored tags, its cooking time is not
      negative, and no other recipe has its (name, author). */
  lemma RecipeReplaceKeepsTablesValid(users: map<UserId, User>, tags: map<TagId, Tag>,
                                      ingredients: map<IngredientId, Ingredient>, recipes: map<RecipeId, Recipe>,
                                      junction: seq<IngredientRecipe>, best: seq<UserRecipe>, cart: seq<UserRecipe>,
                                      follows: seq<Follow>, next: RecipeId, id: RecipeId, rec: Recipe)
    requires TablesValid(users, tags, ingredients, recipes, junction, best, cart, follows, next)
    requires id in recipes && rec.author in users && rec.tags <= tags.Keys && rec.cookingTime >= 0
    requires !NameTakenByOther(recipes, id, rec.name, rec.author)
    ensures TablesValid(users, tags, ingredients, recipes[id := rec], junction, best, cart, follows, next)
  {
    assert recipes[id := rec].Keys == recipes.Keys;
  }

  /** Inserting a recipe under the next key keeps the tables valid when its
      author is a user, its tags are stored tags, its cooking time is not
      negative and its (name, author) is free; no junction row refers to the
      new key yet. */
  lemma RecipeInsertKeepsTablesValid(users: map<UserId, User>, tags: map<TagId, Tag>,
                                     ingredients: map<IngredientId, Ingredient>, recipes: map<RecipeId, Recipe>,
                                     junction: seq<IngredientRecipe>, best: seq<UserRecipe>, cart: seq<UserRecipe>,
                                     follows: seq<Follow>, next: RecipeId, rec: Recipe)
    requires TablesValid(users, tags, ingredients, recipes, junction, best, cart, follows, next)
    requires rec.author in users && rec.tags <= tags.Keys && rec.cookingTime >= 0
    requires !NameTaken(recipes, rec.name, rec.author)
    ensures next !in recipes
    ensures TablesValid(users, tags, ingredients, recipes[next := rec], junction, best, cart, follows, next + 1)
    ensures forall k :: 0 <= k < |junction| ==> junction[k].recipe != next
  {
    var more := recipes[next := rec].Keys;
    assert more == recipes.Keys + {next};
    JunctionWidens(junction, recipes.Keys, ingredients.Keys, more);
    EdgesWiden(best, users.Keys, recipes.Keys, more);
    EdgesWiden(cart, users.Keys, recipes.Keys, more);
  }

  /** Whether another recipe has (name, author) does not depend on the row of `id` itself. */
  lemma NameTakenIgnoresOwnRow(recipes: map<RecipeId, Recipe>, id: RecipeId, rec: Recipe, name: string, author: UserId)
    ensures NameTakenByOther(recipes[id := rec], id, name, author) == NameTakenByOther(recipes, id, name, author)
  {
    if NameTakenByOther(recipes, id, name, author) {
      var o :| o in recipes && o != id && recipes[o].name == name && recipes[o].author == author;
      assert recipes[id := rec][o] == recipes[o];
    }
  }

  /** Changing only a recipe's tags leaves its (name, author) its own. */
  lemma RetagKeepsNameFree(recipes: map<RecipeId, Recipe>, id: RecipeId)
    requires RecipesUnique(recipes) && id in recipes
    ensures !NameTakenByOther(recipes, id, recipes[id].name, recipes[id].author)
  {
  }

  /** Overwriting a recipe's row, with a cooking time within bounds, keeps the bounds. */
  lemma ReplaceKeepsBounds(recipes: map<RecipeId, Recipe>, junction: seq<IngredientRecipe>, maxCooking: int, maxIngredient: int,
                           id: RecipeId, rec: Recipe)
    requires BoundsHold(recipes, junction, maxCooking, maxIngredient)
    requires CookingTimeInBounds(rec.cookingTime, maxCooking)
    ensures BoundsHold(recipes[id := rec], junction, maxCooking, maxIngredient)
  {
  }

  class Store {
    /** The characters REGEX_USERNAME matches. */
    const allowedUsernameChars: set<char>
    /** MAX_COOKING_VALUE and MAX_INGREDIENT_VALUE. */
    const maxCookingValue: int
    const maxIngredientValue: int

    var users: map<UserId, User>
    var tags: map<TagId, Tag>
    var ingredients: map<IngredientId, Ingredient>
    var recipes: map<RecipeId, Recipe>
    var junction: seq<IngredientRecipe>
    var best: seq<UserRecipe>
    var cart: seq<UserRecipe>
    var follows: seq<Follow>
    /** The next primary key a new recipe gets. */
    var nextRecipeId: RecipeId

    ghost predicate Valid()
      reads this
    {
      TablesValid(users, tags, ingredients, recipes, junction, best, cart, follows, nextRecipeId)
    }

    /** The field validators: the bounds of cooking times and amounts, and
        `validator_username` on every stored username. The users are created
        by registration, which is not part of this model. */
    ghost predicate DeclaredValidatorsHold()
      reads this
    {
      BoundsHold(recipes, junction, maxCookingValue, maxIngredientValue) &&
      UsernamesValid(users, allowedUsernameChars)
    }

    /** An empty database. */
    constructor (allowed: set<char>, maxCooking: int, maxIngredient: int)
      ensures Valid() && DeclaredValidatorsHold()
      ensures allowedUsernameChars == allowed && maxCookingValue == maxCooking && maxIngredientValue == maxIngredient
      ensures users == map[] && tags == map[] && ingredients == map[] && recipes == map[]
      ensures junction == [] && best == [] && cart == [] && follows == []
    {
      allowedUsernameChars, maxCookingValue, maxIngredientValue := allowed, maxCooking, maxIngredient;
      users, tags, ingredients, recipes := map[], map[], map[], map[];
      junction, best, cart, follows := [], [], [], [];
      nextRecipeId := 0;
    }

    // ------------------------------------------------------- favourites, cart

    /** FavoriteListSerializer.create behind the POST of `favorite`: a missing
        recipe is not-found, an existing edge is 'Уже в избранном', and
        otherwise exactly one Best edge is added. */
    method AddFavorite(user: UserId, recipe: RecipeId) returns (r: Result<(), ApiError>)
      requires Valid() && user in users
      modifies this`best
      ensures Valid()
      ensures recipe !in recipes ==> r == Failure(NotFound) && best == old(best)
      ensures recipe in recipes && UserRecipe(user, recipe) in old(best) ==> r == Failure(AlreadyFavorited) && best == old(best)
      ensures recipe in recipes && UserRecipe(user, recipe) !in old(best) ==>
        r == Success(()) && best == old(best) + [UserRecipe(user, recipe)]
    {
      if recipe !in recipes {
        return Failure(NotFound);
      }
      var edge := UserRecipe(user, recipe);
      if edge in best {
        return Failure(AlreadyFavorited);
      }
      EdgesValidAppend(best, users.Keys, recipes.Keys, edge);
      best := best + [edge];
      return Success(());
    }

    /** ShoppingCartSerializer.create behind the POST of `shopping_cart`: as
        AddFavorite, except that the unique constraint's IntegrityError on an
        existing edge is not caught. */
    method AddToCart(user: UserId, recipe: RecipeId) returns (r: Result<(), ApiError>)
      requires Valid() && user in users
      modifies this`cart
      ensures Valid()
      ensures recipe !in recipes ==> r == Failure(NotFound) && cart == old(cart)
      ensures recipe in recipes && UserRecipe(user, recipe) in old(cart) ==> r == Failure(IntegrityError) && cart == old(cart)
      ensures recipe in recipes && UserRecipe(user, recipe) !in old(cart) ==>
        r == Success(()) && cart == old(cart) + [UserRecipe(user, recipe)]
    {
      if recipe !in recipes {
        return Failure(NotFound);
      }
      var edge := UserRecipe(user, recipe);
      if edge in cart {
        return Failure(IntegrityError);
      }
      EdgesValidAppend(cart, users.Keys, recipes.Keys, edge);
      cart := cart + [edge];
      return Success(());
    }

    /** The DELETE of `favorite`: not-found when the recipe or the edge is
        missing, otherwise exactly that edge goes. */
    method RemoveFavorite(user: UserId, recipe: RecipeId) returns (r: Result<(), ApiError>)
      requires Valid()
      modifies this`best
      ensures Valid()
      ensures (recipe !in recipes || UserRecipe(user, recipe) !in old(best)) ==> r == Failure(NotFound) && best == old(best)
      ensures recipe in recipes && UserRecipe(user, recipe) in old(best) ==>
        r == Success(()) && best == Without(old(best), UserRecipe(user, recipe))
    {
      if recipe !in recipes {
        return Failure(NotFound);
      }
      var edge := UserRecipe(user, recipe);
      if edge !in best {
        return Failure(NotFound);
      }
      WithoutDistinct(best, edge);
      EdgesValidSubset(best, Without(best, edge), users.Keys, recipes.Keys);
      best := Without(best, edge);
      return Success(());
    }

    /** The DELETE of `shopping_cart`, as RemoveFavorite on the cart. */
    method RemoveFromCart(user: UserId, recipe: RecipeId) returns (r: Result<(), ApiError>)
      requires Valid()
      modifies this`cart
      ensures Valid()
      ensures (recipe !in recipes || UserRecipe(user, recipe) !in old(cart)) ==> r == Failure(NotFound) && cart == old(cart)
      ensures recipe in recipes && UserRecipe(user, recipe) in old(cart) ==>
        r == Success(()) && cart == Without(old(cart), UserRecipe(user, recipe))
    {
      if recipe !in recipes {
        return Failure(NotFound);
      }
      var edge := UserRecipe(user, recipe);
      if edge !in cart {
        return Failure(NotFound);
      }
      WithoutDistinct(cart, edge);
      EdgesValidSubset(cart, Without(cart, edge), users.Keys, recipes.Keys);
      cart := Without(cart, edge);
      return Success(());
    }

    // ------------------------------------------------------------- subscribe

    /** UserSubscribeViewSet.post: both users must exist; FollowSerializer
        rejects an existing edge and a self-follow; otherwise exactly one
        Follow(user, author) edge is added. */
    method Subscribe(user: UserId, author: UserId) returns (r: Result<(), ApiError>)
      requires Valid()
      modifies this`follows
      ensures Valid()
      ensures (user !in users || author !in users) ==> r == Failure(NotFound) && follows == old(follows)
      ensures user in users && author in users ==>
        match ValidateFollow(old(follows), user, author)
        case Failure(e) => r == Failure(Rejected(e)) && follows == old(follows)
        case Success(f) => r == Success(()) && follows == old(follows) + [f]
      ensures r.Success? ==> user != author && IsSubscribed(follows, Some(user), author)
    {
      if user !in users || author !in users {
        return Failure(NotFound);
      }
      match ValidateFollow(follows, user, author)
      case Failure(e) =>
        return Failure(Rejected(e));
      case Success(f) =>
        AcceptedFollowKeepsTableValid(follows, users.Keys, user, author);
        follows := follows + [f];
        return Success(());
    }

    /** UserSubscribeViewSet.delete, with the deletion of the (user, author)
        edge itself (see UnfollowAsWritten for the code as written): a
        missing author or edge is not-found, otherwise exactly that edge goes. */
    method Unsubscribe(user: UserId, author: UserId) returns (r: Result<(), ApiError>)
      requires Valid()
      modifies this`follows
      ensures Valid()
      ensures author !in users ==> r == Failure(NotFound) && follows == old(follows)
      ensures author in users ==>
        match Unfollow(old(follows), user, author)
        case Failure(e) => r == Failure(e) && follows == old(follows)
        case Success(t) => r == Success(()) && follows == t
      ensures !IsSubscribed(follows, Some(user), author)
    {
      if author !in users {
        assert Follow(user, author) !in follows;
        return Failure(NotFound);
      }
      match Unfollow(follows, user, author)
      case Failure(e) =>
        return Failure(e);
      case Success(t) =>
        WithoutDistinct(follows, Follow(user, author));
        FollowsValidSubset(follows, t, users.Keys);
        follows := t;
        return Success(());
    }

    // --------------------------------------------------------------- recipes

    /** `create_ingredients`: inserts one junction row per entry, in order,
        and stops at the first row the database refuses (an unknown
        ingredient, a negative amount, or a (recipe, ingredient) pair that
        already has a row); rows inserted before it stay. Returns the number
        of rows inserted. */
    method CreateIngredients(recipe: RecipeId, entries: seq<IngredientEntry>) returns (inserted: nat)
      requires Valid() && recipe in recipes
      modifies this`junction
      ensures Valid()
      ensures inserted <= |entries|
      ensures junction == old(junction) + RowsFor(recipe, entries[..inserted])
      ensures inserted == |entries| <==> InsertableFrom(old(junction), ingredients.Keys, recipe, entries)
      ensures inserted < |entries| ==> StopsAt(old(junction), ingredients.Keys, recipe, entries, inserted)
      ensures old(DeclaredValidatorsHold()) && (forall k :: 0 <= k < |entries| ==> AmountInBounds(entries[k].amount, maxIngredientValue))
        ==> DeclaredValidatorsHold()
    {
      var rows;
      rows, inserted := InsertRows(junction, recipes.Keys, ingredients.Keys, recipe, entries, maxIngredientValue);
      JunctionSwapKeepsTablesValid(users, tags, ingredients, recipes, junction, rows, best, cart, follows, nextRecipeId);
      junction := rows;
    }

    /** `RecipePostSerializer.create` with `perform_create`'s author: the
        recipe row is inserted (an IntegrityError if (name, author) is taken
        or the cooking time is negative),
        its tags are set, then `create_ingredients` runs. Nothing is rolled
        back: when a junction row fails, the recipe, its tags and the rows
        before the failing one stay. */
    method CreateRecipe(author: UserId, name: string, text: string, cookingTime: int,
                        tagIds: seq<TagId>, entries: seq<IngredientEntry>) returns (r: Result<RecipeId, ApiError>)
      requires Valid() && author in users
      requires forall k :: 0 <= k < |tagIds| ==> tagIds[k] in tags
      modifies this`recipes, this`junction, this`nextRecipeId
      ensures Valid()
      ensures NameTaken(old(recipes), name, author) || cookingTime < 0 ==>
        r == Failure(IntegrityError) && recipes == old(recipes) && junction == old(junction) && nextRecipeId == old(nextRecipeId)
      ensures !NameTaken(old(recipes), name, author) && cookingTime >= 0 ==>
        var id := old(nextRecipeId);
        id !in old(recipes) && nextRecipeId == id + 1 &&
        recipes == old(recipes)[id := Recipe(name, text, cookingTime, author, TagSet(tagIds))] &&
        (r.Success? <==> EntriesInsertable(ingredients.Keys, entries)) &&
        (r.Success? ==> r.value == id && junction == old(junction) + RowsFor(id, entries)) &&
        (r.Failure? ==>
           r.error == IntegrityError &&
           exists n: nat :: StopsAt(old(junction), ingredients.Keys, id, entries, n) &&
             junction == old(junction) + RowsFor(id, entries[..n]))
      ensures old(DeclaredValidatorsHold()) && CookingTimeInBounds(cookingTime, maxCookingValue) &&
        (forall k :: 0 <= k < |entries| ==> AmountInBounds(entries[k].amount, maxIngredientValue))
        ==> DeclaredValidatorsHold()
    {
      if NameTaken(recipes, name, author) || cookingTime < 0 {
        return Failure(IntegrityError);
      }
      var id := nextRecipeId;
      var rec := Recipe(name, text, cookingTime, author, TagSet(tagIds));
      RecipeInsertKeepsTablesValid(users, tags, ingredients, recipes, junction, best, cart, follows, id, rec);
      FreshRecipeInsertable(junction, ingredients.Keys, id, entries);
      recipes, nextRecipeId := recipes[id := rec], nextRecipeId + 1;
      ghost var before := junction;
      var n := CreateIngredients(id, entries);
      if n < |entries| {
        assert StopsAt(before, ingredients.Keys, id, entries, n);
        return Failure(IntegrityError);
      }
      assert entries[..n] == entries;
      return Success(id);
    }

    /** The ingredient step of `update`: `instance.ingredients.clear()`, then
        `create_ingredients`, which stops at the first row refused. Returns
        the number of rows inserted. */
    method ReplaceIngredients(id: RecipeId, entries: seq<IngredientEntry>) returns (inserted: nat)
      requires Valid() && id in recipes
      modifies this`junction
      ensures Valid()
      ensures inserted <= |entries|
      ensures junction == RowsOutside(old(junction), {id}) + RowsFor(id, entries[..inserted])
      ensures inserted == |entries| <==> EntriesInsertable(ingredients.Keys, entries)
      ensures inserted < |entries| ==> StopsAt(RowsOutside(old(junction), {id}), ingredients.Keys, id, entries, inserted)
      ensures old(DeclaredValidatorsHold()) && (forall k :: 0 <= k < |entries| ==> AmountInBounds(entries[k].amount, maxIngredientValue))
        ==> DeclaredValidatorsHold()
    {
      RowsClearedKeepTablesValid(users, tags, ingredients, recipes, junction, best, cart, follows, nextRecipeId, id);
      if DeclaredValidatorsHold() {
        AmountsInBoundsSubset(junction, RowsOutside(junction, {id}), maxIngredientValue);
      }
      junction := RowsOutside(junction, {id});
      FreshRecipeInsertable(junction, ingredients.Keys, id, entries);
      inserted := CreateIngredients(id, entries);
    }

    /** `RecipePostSerializer.update` with `perform_update`'s author: when
        ingredients are given, the recipe's rows are deleted and recreated;
        when tags are given, they are set; then the given fields and the
        editor as author are saved, an IntegrityError if another recipe has
        that (name, author) or the cooking time is negative. Each step that
        succeeded stays. */
    method UpdateRecipe(id: RecipeId, editor: UserId, entries: Option<seq<IngredientEntry>>, tagIds: Option<seq<TagId>>,
                        name: Option<string>, text: Option<string>, cookingTime: Option<int>) returns (r: Result<(), ApiError>)
      requires Valid() && editor in users
      requires tagIds.Some? ==> forall k :: 0 <= k < |tagIds.value| ==> tagIds.value[k] in tags
      modifies this`recipes, this`junction
      ensures Valid()
      ensures id !in old(recipes) ==> r == Failure(NotFound) && recipes == old(recipes) && junction == old(junction)
      ensures id in old(recipes) && entries.None? ==> junction == old(junction)
      ensures id in old(recipes) && entries.Some? && !EntriesInsertable(ingredients.Keys, entries.value) ==>
        r == Failure(IntegrityError) && recipes == old(recipes) &&
        exists n: nat :: StopsAt(RowsOutside(old(junction), {id}), ingredients.Keys, id, entries.value, n) &&
          junction == RowsOutside(old(junction), {id}) + RowsFor(id, entries.value[..n])
      ensures id in old(recipes) && (entries.None? || EntriesInsertable(ingredients.Keys, entries.value)) ==>
        (entries.Some? ==> junction == RowsOutside(old(junction), {id}) + RowsFor(id, entries.value)) &&
        var tagged := old(recipes)[id].(tags := if tagIds.Some? then TagSet(tagIds.value) else old(recipes)[id].tags);
        var updated := Edited(tagged, editor, name, text, cookingTime);
        if NameTakenByOther(old(recipes), id, updated.name, editor) || updated.cookingTime < 0 then
          r == Failure(IntegrityError) && recipes == old(recipes)[id := tagged]
        else
          r == Success(()) && recipes == old(recipes)[id := updated]
      ensures old(DeclaredValidatorsHold()) &&
        (entries.Some? ==> forall k :: 0 <= k < |entries.value| ==> AmountInBounds(entries.value[k].amount, maxIngredientValue)) &&
        (cookingTime.Some? ==> CookingTimeInBounds(cookingTime.value, maxCookingValue))
        ==> DeclaredValidatorsHold()
    {
      if id !in recipes {
        return Failure(NotFound);
      }
      if entries.Some? {
        var n := ReplaceIngredients(id, entries.value);
        if n < |entries.value| {
          assert StopsAt(RowsOutside(old(junction), {id}), ingredients.Keys, id, entries.value, n);
          return Failure(IntegrityError);
        }
        assert entries.value[..n] == entries.value;
      }
      ghost var before := recipes;
      ghost var tagged := before[id].(tags := if tagIds.Some? then TagSet(tagIds.value) else before[id].tags);
      ghost var updated := Edited(tagged, editor, name, text, cookingTime);
      if tagIds.Some? {
        NameTakenIgnoresOwnRow(recipes, id, tagged, updated.name, editor);
        Retag(id, tagIds.value);
      } else {
        assert before[id := tagged] == before;
      }
      r := SaveFields(id, editor, name, text, cookingTime);
      assert before[id := tagged][id := updated] == before[id := updated];
    }

    /** The tag step of `update`: `instance.tags.set(...)`. */
    method Retag(id: RecipeId, tagIds: seq<TagId>)
      requires Valid() && id in recipes
      requires forall k :: 0 <= k < |tagIds| ==> tagIds[k] in tags
      modifies this`recipes
      ensures Valid()
      ensures recipes == old(recipes)[id := old(recipes)[id].(tags := TagSet(tagIds))]
      ensures old(DeclaredValidatorsHold()) ==> DeclaredValidatorsHold()
    {
      var tagged := recipes[id].(tags := TagSet(tagIds));
      RetagKeepsNameFree(recipes, id);
      RecipeReplaceKeepsTablesValid(users, tags, ingredients, recipes, junction, best, cart, follows, nextRecipeId, id, tagged);
      if DeclaredValidatorsHold() {
        ReplaceKeepsBounds(recipes, junction, maxCookingValue, maxIngredientValue, id, tagged);
      }
      recipes := recipes[id := tagged];
    }

    /** The last step of `update` (`super().update`): the given fields and
        the editor as author are saved, an IntegrityError when another
        recipe has that (name, author) or the cooking time is negative. */
    method SaveFields(id: RecipeId, editor: UserId, name: Option<string>, text: Option<string>, cookingTime: Option<int>)
      returns (r: Result<(), ApiError>)
      requires Valid() && id in recipes && editor in users
      modifies this`recipes
      ensures Valid()
      ensures var updated := Edited(old(recipes)[id], editor, name, text, cookingTime);
        if NameTakenByOther(old(recipes), id, updated.name, editor) || updated.cookingTime < 0 then
          r == Failure(IntegrityError) && recipes == old(recipes)
        else
          r == Success(()) && recipes == old(recipes)[id := updated]
      ensures old(DeclaredValidatorsHold()) && (cookingTime.Some? ==> CookingTimeInBounds(cookingTime.value, maxCookingValue))
        ==> DeclaredValidatorsHold()
    {
      var updated := Edited(recipes[id], editor, name, text, cookingTime);
      if NameTakenByOther(recipes, id, updated.name, editor) || updated.cookingTime < 0 {
        return Failure(IntegrityError);
      }
      RecipeReplaceKeepsTablesValid(users, tags, ingredients, recipes, junction, best, cart, follows, nextRecipeId, id, updated);
      if DeclaredValidatorsHold() && (cookingTime.Some? ==> CookingTimeInBounds(cookingTime.value, maxCookingValue)) {
        ReplaceKeepsBounds(recipes, junction, maxCookingValue, maxIngredientValue, id, updated);
      }
      recipes := recipes[id := updated];
      return Success(());
    }

    /** The `destroy` of RecipeViewSet: the recipe goes, and with it (CASCADE)
        its junction rows, favourites and cart entries. */
    method DeleteRecipe(id: RecipeId) returns (r: Result<(), ApiError>)
      requires Valid()
      modifies this`recipes, this`junction, this`best, this`cart
      ensures Valid()
      ensures old(DeclaredValidatorsHold()) ==> DeclaredValidatorsHold()
      ensures id !in old(recipes) ==>
        r == Failure(NotFound) && recipes == old(recipes) && junction == old(junction) && best == old(best) && cart == old(cart)
      ensures id in old(recipes) ==>
        r == Success(()) && recipes == old(recipes) - {id} &&
        junction == RowsOutside(old(junction), {id}) &&
        best == EdgesOutside(old(best), None, {id}) && cart == EdgesOutside(old(cart), None, {id})
    {
      if id !in recipes {
        return Failure(NotFound);
      }
      RecipeDeleteKeepsTablesValid(users, tags, ingredients, recipes, junction, best, cart, follows, nextRecipeId, id);
      if DeclaredValidatorsHold() {
        DeleteKeepsBounds(recipes, junction, maxCookingValue, maxIngredientValue, {id});
      }
      recipes, junction, best, cart :=
        recipes - {id}, RowsOutside(junction, {id}), EdgesOutside(best, None, {id}), EdgesOutside(cart, None, {id});
      return Success(());
    }

    /** Deleting a user: their recipes go with them (CASCADE), and with those
        recipes and with the user every junction row, favourite, cart entry
        and follow that refers to either. */
    method DeleteUser(u: UserId) returns (r: Result<(), ApiError>)
      requires Valid()
      modifies this`users, this`recipes, this`junction, this`best, this`cart, this`follows
      ensures Valid()
      ensures old(DeclaredValidatorsHold()) ==> DeclaredValidatorsHold()
      ensures u !in old(users) ==>
        r == Failure(NotFound) && users == old(users) && recipes == old(recipes) && junction == old(junction) &&
        best == old(best) && cart == old(cart) && follows == old(follows)
      ensures u in old(users) ==>
        var gone := AuthoredBy(old(recipes), u);
        r == Success(()) && users == old(users) - {u} && recipes == old(recipes) - gone &&
        junction == RowsOutside(old(junction), gone) &&
        best == EdgesOutside(old(best), Some(u), gone) && cart == EdgesOutside(old(cart), Some(u), gone) &&
        follows == FollowsAfterUserDelete(old(follows), u)
    {
      if u !in users {
        return Failure(NotFound);
      }
      var gone := AuthoredBy(recipes, u);
      UserDeleteKeepsTablesValid(users, tags, ingredients, recipes, junction, best, cart, follows, nextRecipeId, u, gone);
      if DeclaredValidatorsHold() {
        DeleteKeepsBounds(recipes, junction, maxCookingValue, maxIngredientValue, gone);
      }
      users, recipes, junction, best, cart, follows :=
        users - {u}, recipes - gone, RowsOutside(junction, gone),
        EdgesOutside(best, Some(u), gone), EdgesOutside(cart, Some(u), gone), FollowsAfterUserDelete(follows, u);
      return Success(());
    }
  }
}
