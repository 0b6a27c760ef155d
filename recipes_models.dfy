/** recipes/models.py: tags, ingredients, recipes, the recipe/ingredient
    junction with its amount, favourites (Best) and the cart (ShopCart),
    with the constraints and bounds the schema declares. MAX_COOKING_VALUE
    and MAX_INGREDIENT_VALUE are not defined in recipes/constants.py; they
    are parameters here. */
module RecipesModels {
  import opened Collections
  import opened UsersModels
  import opened Wrappers

  type TagId = int
  type IngredientId = int
  type RecipeId = int

  const MinCookingValue: int := 1
  const MinIngredientValue: int := 1

  datatype Tag = Tag(name: string, color: string, slug: string)

  datatype Ingredient = Ingredient(name: string, measurementUnit: string)

  /** A recipe row; `tags` is its many-to-many tag relation. The image and
      publication date are not modelled. */
  datatype Recipe = Recipe(name: string, text: string, cookingTime: int, author: UserId, tags: set<TagId>)

  /** An IngredientRecipe row: `amount` of `ingredient` in `recipe`. */
  datatype IngredientRecipe = IngredientRecipe(recipe: RecipeId, ingredient: IngredientId, amount: int)

  /** A Best (favourite) or ShopCart (cart) row. */
  datatype UserRecipe = UserRecipe(user: UserId, recipe: RecipeId)

  /** Each tag slug is unique. */
  ghost predicate TagSlugsUnique(tags: map<TagId, Tag>) {
    forall a, b :: a in tags && b in tags && a != b ==> tags[a].slug != tags[b].slug
  }

  /** Ingredients are unique on (name, measurement_unit). */
  ghost predicate IngredientsUnique(ingredients: map<IngredientId, Ingredient>) {
    forall a, b :: a in ingredients && b in ingredients && a != b ==> ingredients[a] != ingredients[b]
  }

  /** Recipes are unique on (name, author). */
  ghost predicate RecipesUnique(recipes: map<RecipeId, Recipe>) {
    forall a, b :: a in recipes && b in recipes && a != b ==>
      recipes[a].name != recipes[b].name || recipes[a].author != recipes[b].author
  }

  /** The key of the junction's unique constraint. */
  function Slot(row: IngredientRecipe): (RecipeId, IngredientId) {
    (row.recipe, row.ingredient)
  }

  /** A row for (recipe, ingredient) is present. */
  predicate HasSlot(rows: seq<IngredientRecipe>, recipe: RecipeId, ingredient: IngredientId) {
    exists k :: 0 <= k < |rows| && rows[k].recipe == recipe && rows[k].ingredient == ingredient
  }

  /** At most one junction row per (recipe, ingredient), both ends exist, and
      the amount is a PositiveSmallIntegerField value (not negative). */
  ghost predicate JunctionValid(rows: seq<IngredientRecipe>, recipeIds: set<RecipeId>, ingredientIds: set<IngredientId>) {
    DistinctBy(rows, Slot) &&
    forall k :: 0 <= k < |rows| ==>
      rows[k].recipe in recipeIds && rows[k].ingredient in ingredientIds && rows[k].amount >= 0
  }

  /** At most one Best (or ShopCart) row per (user, recipe), both ends exist. */
  ghost predicate EdgesValid(edges: seq<UserRecipe>, userIds: set<UserId>, recipeIds: set<RecipeId>) {
    Distinct(edges) && forall k :: 0 <= k < |edges| ==> edges[k].user in userIds && edges[k].recipe in recipeIds
  }

  /** `cooking_time` is a PositiveSmallIntegerField: the database's CHECK
      keeps every stored value non-negative. */
  ghost predicate CookingTimesStorable(recipes: map<RecipeId, Recipe>) {
    forall id :: id in recipes ==> recipes[id].cookingTime >= 0
  }

  /** The field validators' bounds: MIN_COOKING_VALUE..MAX_COOKING_VALUE. */
  predicate CookingTimeInBounds(t: int, maxCooking: int) {
    MinCookingValue <= t <= maxCooking
  }

  /** The field validators' bounds: MIN_INGREDIENT_VALUE..MAX_INGREDIENT_VALUE. */
  predicate AmountInBounds(a: int, maxIngredient: int) {
    MinIngredientValue <= a <= maxIngredient
  }

  /** The junction rows that survive deleting the recipes `removed` (CASCADE). */
  function RowsOutside(rows: seq<IngredientRecipe>, removed: set<RecipeId>): (r: seq<IngredientRecipe>)
    ensures forall x {:trigger x in r} :: x in r <==> x in rows && x.recipe !in removed
  {
    Filter(rows, (x: IngredientRecipe) => x.recipe !in removed)
  }

  /** The Best/ShopCart rows that survive deleting user `u` (pass a user
      absent from the table to delete recipes only) and the recipes `removed`. */
  function EdgesOutside(edges: seq<UserRecipe>, u: Option<UserId>, removed: set<RecipeId>): (r: seq<UserRecipe>)
    ensures forall x {:trigger x in r} :: x in r <==> x in edges && (u.None? || x.user != u.value) && x.recipe !in removed
  {
    Filter(edges, (x: UserRecipe) => (u.None? || x.user != u.value) && x.recipe !in removed)
  }

  /** After the cascade, the junction constraints hold against the remaining recipes. */
  lemma {:induction false} RecipeDeleteKeepsJunctionValid(rows: seq<IngredientRecipe>, recipeIds: set<RecipeId>,
                                                           ingredientIds: set<IngredientId>, removed: set<RecipeId>)
    requires JunctionValid(rows, recipeIds, ingredientIds)
    ensures JunctionValid(RowsOutside(rows, removed), recipeIds - removed, ingredientIds)
  {
    var r := RowsOutside(rows, removed);
    FilterDistinctBy(rows, (x: IngredientRecipe) => x.recipe !in removed, Slot);
    forall k | 0 <= k < |r|
      ensures r[k].recipe in recipeIds - removed && r[k].ingredient in ingredientIds && r[k].amount >= 0
    {
      assert r[k] in r;
      var j :| 0 <= j < |rows| && rows[j] == r[k];
    }
  }

  /** After the cascade, the Best/ShopCart constraints hold against the remaining users and recipes. */
  lemma {:induction false} DeleteKeepsEdgesValid(edges: seq<UserRecipe>, userIds: set<UserId>, recipeIds: set<RecipeId>,
                                                 u: Option<UserId>, removed: set<RecipeId>)
    requires EdgesValid(edges, userIds, recipeIds)
    ensures EdgesValid(EdgesOutside(edges, u, removed), if u.Some? then userIds - {u.value} else userIds, recipeIds - removed)
  {
    var r := EdgesOutside(edges, u, removed);
    FilterDistinct(edges, (x: UserRecipe) => (u.None? || x.user != u.value) && x.recipe !in removed);
    forall k | 0 <= k < |r|
      ensures r[k].user in (if u.Some? then userIds - {u.value} else userIds) && r[k].recipe in recipeIds - removed
    {
      assert r[k] in r;
      var j :| 0 <= j < |edges| && edges[j] == r[k];
    }
  }

  /** Appending a row for a free (recipe, ingredient) slot keeps the junction constraints. */
  lemma AppendRowKeepsJunctionValid(rows: seq<IngredientRecipe>, recipeIds: set<RecipeId>,
                                    ingredientIds: set<IngredientId>, row: IngredientRecipe)
    requires JunctionValid(rows, recipeIds, ingredientIds)
    requires row.recipe in recipeIds && row.ingredient in ingredientIds && row.amount >= 0
    requires !HasSlot(rows, row.recipe, row.ingredient)
    ensures JunctionValid(rows + [row], recipeIds, ingredientIds)
  {
    var t := rows + [row];
    forall i, j | 0 <= i < j < |t| ensures Slot(t[i]) != Slot(t[j]) {
      if j == |rows| {
        assert t[i] == rows[i];
      }
    }
  }

  /** After deleting the rows of the `removed` recipes, none of them has a row left. */
  lemma RowsOutsideLeavesNone(rows: seq<IngredientRecipe>, removed: set<RecipeId>)
    ensures forall k :: 0 <= k < |RowsOutside(rows, removed)| ==> RowsOutside(rows, removed)[k].recipe !in removed
  {
    var r := RowsOutside(rows, removed);
    forall k | 0 <= k < |r| ensures r[k].recipe !in removed {
      assert r[k] in r;
    }
  }

  /** Every amount in `rows` lies within the field validators' bounds. */
  ghost predicate AmountsInBounds(rows: seq<IngredientRecipe>, max: int) {
    forall k :: 0 <= k < |rows| ==> AmountInBounds(rows[k].amount, max)
  }

  lemma AmountsInBoundsSubset(rows: seq<IngredientRecipe>, sub: seq<IngredientRecipe>, max: int)
    requires AmountsInBounds(rows, max)
    requires forall x :: x in sub ==> x in rows
    ensures AmountsInBounds(sub, max)
  {
    forall k | 0 <= k < |sub| ensures AmountInBounds(sub[k].amount, max) {
      assert sub[k] in rows;
    }
  }

  /** Adding recipes to the table keeps the junction's references valid. */
  lemma JunctionWidens(rows: seq<IngredientRecipe>, recipeIds: set<RecipeId>, ingredientIds: set<IngredientId>, more: set<RecipeId>)
    requires recipeIds <= more && JunctionValid(rows, recipeIds, ingredientIds)
    ensures JunctionValid(rows, more, ingredientIds)
  {
  }

  /** Adding recipes to the table keeps an edge table's references valid. */
  lemma EdgesWiden(edges: seq<UserRecipe>, userIds: set<UserId>, recipeIds: set<RecipeId>, more: set<RecipeId>)
    requires recipeIds <= more && EdgesValid(edges, userIds, recipeIds)
    ensures EdgesValid(edges, userIds, more)
  {
  }

  /** Every recipe's author is a user, its tags are stored tags, and its key
      is below the next key to hand out. */
  ghost predicate RecipesLinked(recipes: map<RecipeId, Recipe>, userIds: set<UserId>, tagIds: set<TagId>, next: RecipeId) {
    forall id :: id in recipes ==> recipes[id].author in userIds && recipes[id].tags <= tagIds && id < next
  }

  /** Deleting recipes (at least those of a deleted user) keeps the rest linked and unique. */
  lemma RecipeDeleteKeepsRecipesValid(recipes: map<RecipeId, Recipe>, userIds: set<UserId>, tagIds: set<TagId>, next: RecipeId,
                                      gone: set<RecipeId>, u: Option<UserId>)
    requires RecipesLinked(recipes, userIds, tagIds, next) && RecipesUnique(recipes)
    requires u.Some? ==> forall id :: id in recipes && recipes[id].author == u.value ==> id in gone
    ensures RecipesLinked(recipes - gone, if u.Some? then userIds - {u.value} else userIds, tagIds, next)
    ensures RecipesUnique(recipes - gone)
    ensures (recipes - gone).Keys == recipes.Keys - gone
  {
  }

  /** A duplicate-free selection of valid edges is valid. */
  lemma EdgesValidSubset(edges: seq<UserRecipe>, sub: seq<UserRecipe>, userIds: set<UserId>, recipeIds: set<RecipeId>)
    requires EdgesValid(edges, userIds, recipeIds) && Distinct(sub)
    requires forall e :: e in sub ==> e in edges
    ensures EdgesValid(sub, userIds, recipeIds)
  {
    forall k | 0 <= k < |sub| ensures sub[k].user in userIds && sub[k].recipe in recipeIds {
      assert sub[k] in edges;
    }
  }

  /** Appending a new edge between stored rows keeps the edge table valid. */
  lemma EdgesValidAppend(edges: seq<UserRecipe>, userIds: set<UserId>, recipeIds: set<RecipeId>, e: UserRecipe)
    requires EdgesValid(edges, userIds, recipeIds) && e !in edges
    requires e.user in userIds && e.recipe in recipeIds
    ensures EdgesValid(edges + [e], userIds, recipeIds)
  {
    AppendDistinct(edges, e);
    var t := edges + [e];
    forall k | 0 <= k < |t| ensures t[k].user in userIds && t[k].recipe in recipeIds {
      if k < |edges| { assert t[k] == edges[k]; }
    }
  }
}
