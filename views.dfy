/** api/views.py: the serializer dispatch of RecipeViewSet, the shopping-list
    export, and the decision of UserSubscribeViewSet.delete. The view actions
    that write to the store are methods of Storage.Store. */
module Views {
  import opened Wrappers
  import opened Collections
  import opened UsersModels
  import opened RecipesModels
  import Serializers

  /** The outcomes other than success that the views produce. */
  datatype ApiError =
    | NotFound                                // get_object_or_404, or 'Объект не найден'
    | Rejected(reason: Serializers.FollowError) // FollowSerializer validation error
    | AlreadyFavorited                        // 'Уже в избранном'
    | IntegrityError                          // a unique or foreign-key constraint raised and was not caught
    | MultipleObjectsReturned                 // `.get()` matched more than one row

  // ---------------------------------------------------------------- dispatch

  /** The serializers RecipeViewSet chooses between. `RecipeSerializer` is
      the name views.py imports; serializers.py defines no such class. */
  datatype SerializerClass = RecipeGetSerializer | FavoriteListSerializer | ShoppingCartSerializer | RecipeSerializer

  /** `get_serializer_class`. */
  function GetSerializerClass(action: string): (c: SerializerClass)
    ensures c == RecipeGetSerializer <==> action == "list" || action == "retrieve"
    ensures c == FavoriteListSerializer <==> action == "favorite"
    ensures c == ShoppingCartSerializer <==> action == "shopping_cart"
    ensures c == RecipeSerializer <==> action !in ["list", "retrieve", "favorite", "shopping_cart"]
  {
    if action in ["list", "retrieve"] then RecipeGetSerializer
    else if action == "favorite" then FavoriteListSerializer
    else if action == "shopping_cart" then ShoppingCartSerializer
    else RecipeSerializer
  }

  // ----------------------------------------------------------- shopping list

  const Title: string := "Foodgram"
  const Heading: string := "Список покупок:"
  /** 'Foodgram\nСписок покупок:\n' */
  const Header: string := Title + "\n" + Heading + "\n"

  /** `[item.recipe.id for item in ShopCart.objects.filter(user=user)]`. */
  function CartRecipes(cart: seq<UserRecipe>, user: UserId): (recipes: seq<RecipeId>)
    ensures forall r :: r in recipes <==> UserRecipe(user, r) in cart
  {
    if cart == [] then []
    else (if cart[0].user == user then [cart[0].recipe] else []) + CartRecipes(cart[1..], user)
  }

  /** The groups of the query: each ingredient of a junction row of a cart recipe. */
  ghost function BuyListKeys(rows: seq<IngredientRecipe>, recipes: seq<RecipeId>): set<IngredientId> {
    set k | 0 <= k < |rows| && rows[k].recipe in recipes :: rows[k].ingredient
  }

  /** `Sum('amount')` of one group: the amounts of the junction rows of the
      cart recipes that use `ingredient`. */
  function AmountFor(rows: seq<IngredientRecipe>, recipes: seq<RecipeId>, ingredient: IngredientId): int {
    if rows == [] then 0
    else Hit(rows[0], recipes, ingredient) + AmountFor(rows[1..], recipes, ingredient)
  }

  /** What one junction row contributes to the group of `ingredient`. */
  function Hit(row: IngredientRecipe, recipes: seq<RecipeId>, ingredient: IngredientId): int {
    if row.recipe in recipes && row.ingredient == ingredient then row.amount else 0
  }

  /** The decimal digits of `n`: f'{n}' for a non-negative int. */
  function NatToString(n: nat): (s: string)
    ensures |s| >= 1
    ensures forall k :: 0 <= k < |s| ==> '0' <= s[k] <= '9'
  {
    if n < 10 then [('0' as int + n) as char]
    else NatToString(n / 10) + [('0' as int + n % 10) as char]
  }

  /** The value of a string of decimal digits. */
  function DigitsValue(s: string): int
    requires forall k :: 0 <= k < |s| ==> '0' <= s[k] <= '9'
  {
    if s == [] then 0 else DigitsValue(s[..|s| - 1]) * 10 + (s[|s| - 1] as int - '0' as int)
  }

  /** Rendering a count in decimal loses nothing: reading the digits back gives the count. */
  lemma {:induction false} NatToStringRoundTrip(n: nat)
    ensures DigitsValue(NatToString(n)) == n
  {
    if n >= 10 {
      NatToStringRoundTrip(n / 10);
      var s := NatToString(n);
      assert s[..|s| - 1] == NatToString(n / 10);
    }
  }

  /** f'{n}' for any int. */
  function IntToString(n: int): (s: string)
    ensures '\n' !in s
    ensures n >= 0 ==> s == NatToString(n)
    ensures n < 0 ==> s == "-" + NatToString(-n)
  {
    if n < 0 then "-" + NatToString(-n) else NatToString(n)
  }

  /** One line of the list: f'{name}, {amount} {measurement_unit}\n'. */
  function Line(ingredient: Ingredient, amount: int): string {
    ingredient.name + ", " + IntToString(amount) + " " + ingredient.measurementUnit + "\n"
  }

  /** The lines for the groups in `order`, first to last. */
  function Lines(ingredients: map<IngredientId, Ingredient>, rows: seq<IngredientRecipe>,
                 recipes: seq<RecipeId>, order: seq<IngredientId>): string
    requires forall k :: 0 <= k < |order| ==> order[k] in ingredients
  {
    if order == [] then ""
    else
      var last := order[|order| - 1];
      Lines(ingredients, rows, recipes, order[..|order| - 1]) + Line(ingredients[last], AmountFor(rows, recipes, last))
  }

  /** `download_shopping_cart`. `order` is the order in which the grouped
      query returns its rows; Ingredient.objects.get finds every grouped
      ingredient because junction rows reference stored ingredients. The text
      is the header, then one line per group in that order; an empty cart
      gives the header alone. */
  method DownloadShoppingCart(user: UserId, cart: seq<UserRecipe>, junction: seq<IngredientRecipe>,
                              ingredients: map<IngredientId, Ingredient>, order: seq<IngredientId>)
    returns (text: string)
    requires Enumerates(order, BuyListKeys(junction, CartRecipes(cart, user)))
    requires forall k :: 0 <= k < |order| ==> order[k] in ingredients
    ensures text == Header + Lines(ingredients, junction, CartRecipes(cart, user), order)
    ensures CartRecipes(cart, user) == [] ==> text == Header
  {
    var recipes := CartRecipes(cart, user);
    text := AppendLines(Header, ingredients, junction, recipes, order);
    if recipes == [] {
      EmptyCartHasNoGroups(junction, order);
    }
  }

  /** The loop of `download_shopping_cart`: for each group in `order`, look
      the ingredient up and append its line to `buyListText`. */
  method AppendLines(buyListText: string, ingredients: map<IngredientId, Ingredient>, rows: seq<IngredientRecipe>,
                     recipes: seq<RecipeId>, order: seq<IngredientId>) returns (text: string)
    requires forall k :: 0 <= k < |order| ==> order[k] in ingredients
    ensures text == buyListText + Lines(ingredients, rows, recipes, order)
  {
    text := buyListText;
    var i := 0;
    while i < |order|
      invariant 0 <= i <= |order|
      invariant text == buyListText + Lines(ingredients, rows, recipes, order[..i])
    {
      var ingredient := ingredients[order[i]];
      var amount := AmountFor(rows, recipes, order[i]);
      LinesStep(ingredients, rows, recipes, order, i);
      text := text + Line(ingredient, amount);
      i := i + 1;
    }
    assert order[..i] == order;
  }

  /** The lines for one more group are the earlier lines and that group's line. */
  lemma LinesStep(ingredients: map<IngredientId, Ingredient>, rows: seq<IngredientRecipe>,
                  recipes: seq<RecipeId>, order: seq<IngredientId>, i: nat)
    requires i < |order|
    requires forall k :: 0 <= k < |order| ==> order[k] in ingredients
    ensures Lines(ingredients, rows, recipes, order[..i + 1]) ==
            Lines(ingredients, rows, recipes, order[..i]) + Line(ingredients[order[i]], AmountFor(rows, recipes, order[i]))
  {
    var done := order[..i + 1];
    assert done[..i] == order[..i] && done[i] == order[i];
  }

  // The properties of the list.

  lemma EmptyCartHasNoGroups(junction: seq<IngredientRecipe>, order: seq<IngredientId>)
    requires Enumerates(order, BuyListKeys(junction, []))
    ensures order == []
  {
    assert BuyListKeys(junction, []) == {};
    EnumerationCard(order, BuyListKeys(junction, []));
  }

  /** Number of line breaks in a text. */
  function NewlineCount(s: string): nat {
    if s == [] then 0 else (if s[0] == '\n' then 1 else 0) + NewlineCount(s[1..])
  }

  lemma {:induction false} NewlineCountAppend(a: string, b: string)
    ensures NewlineCount(a + b) == NewlineCount(a) + NewlineCount(b)
  {
    if a == [] {
      assert a + b == b;
    } else {
      assert (a + b)[1..] == a[1..] + b;
      NewlineCountAppend(a[1..], b);
    }
  }

  lemma {:induction false} NoNewlineCountsZero(s: string)
    requires '\n' !in s
    ensures NewlineCount(s) == 0
  {
    if s != [] {
      assert forall c :: c in s[1..] ==> c in s;
      NoNewlineCountsZero(s[1..]);
    }
  }

  ghost predicate SingleLineNames(ingredients: map<IngredientId, Ingredient>) {
    forall i :: i in ingredients ==> '\n' !in ingredients[i].name && '\n' !in ingredients[i].measurementUnit
  }

  lemma HeaderHasTwoLines()
    ensures NewlineCount(Header) == 2
  {
    TwoLines(Title, Heading);
  }

  lemma TwoLines(a: string, b: string)
    requires '\n' !in a && '\n' !in b
    ensures NewlineCount(a + "\n" + b + "\n") == 2
  {
    NewlineCountAppend(a + "\n" + b, "\n");
    NewlineCountAppend(a + "\n", b);
    NewlineCountAppend(a, "\n");
    NoNewlineCountsZero(a);
    NoNewlineCountsZero(b);
    assert NewlineCount("\n") == 1 by {
      assert "\n"[1..] == [];
    }
  }

  lemma {:induction false} LineIsOneLine(ingredient: Ingredient, amount: int)
    requires '\n' !in ingredient.name && '\n' !in ingredient.measurementUnit
    ensures NewlineCount(Line(ingredient, amount)) == 1
  {
    var a := ingredient.name + ", " + IntToString(amount) + " " + ingredient.measurementUnit;
    assert Line(ingredient, amount) == a + "\n";
    assert '\n' !in a;
    NewlineCountAppend(a, "\n");
    NoNewlineCountsZero(a);
  }

  /** With single-line names and units, the lines text holds exactly one line per group. */
  lemma {:induction false} LinesCount(ingredients: map<IngredientId, Ingredient>, rows: seq<IngredientRecipe>,
                                      recipes: seq<RecipeId>, order: seq<IngredientId>)
    requires forall k :: 0 <= k < |order| ==> order[k] in ingredients
    requires SingleLineNames(ingredients)
    ensures NewlineCount(Lines(ingredients, rows, recipes, order)) == |order|
  {
    if order != [] {
      var init := order[..|order| - 1];
      var last := order[|order| - 1];
      LinesCount(ingredients, rows, recipes, init);
      LineIsOneLine(ingredients[last], AmountFor(rows, recipes, last));
      NewlineCountAppend(Lines(ingredients, rows, recipes, init), Line(ingredients[last], AmountFor(rows, recipes, last)));
    }
  }

  /** The exported text is the two header lines and one line per distinct
      ingredient occurring in a recipe of the user's cart. */
  lemma ShoppingListHasOneLinePerIngredient(user: UserId, cart: seq<UserRecipe>, junction: seq<IngredientRecipe>,
                                            ingredients: map<IngredientId, Ingredient>, order: seq<IngredientId>)
    requires Enumerates(order, BuyListKeys(junction, CartRecipes(cart, user)))
    requires forall k :: 0 <= k < |order| ==> order[k] in ingredients
    requires SingleLineNames(ingredients)
    ensures NewlineCount(Header + Lines(ingredients, junction, CartRecipes(cart, user), order))
            == 2 + |BuyListKeys(junction, CartRecipes(cart, user))|
  {
    var recipes := CartRecipes(cart, user);
    HeaderHasTwoLines();
    LinesCount(ingredients, junction, recipes, order);
    NewlineCountAppend(Header, Lines(ingredients, junction, recipes, order));
    EnumerationCard(order, BuyListKeys(junction, recipes));
  }

  /** Sum of the amounts of all the cart's junction rows. */
  function CartTotal(rows: seq<IngredientRecipe>, recipes: seq<RecipeId>): int {
    if rows == [] then 0 else (if rows[0].recipe in recipes then rows[0].amount else 0) + CartTotal(rows[1..], recipes)
  }

  /** Sum of the group amounts over `order`. */
  function SumOver(rows: seq<IngredientRecipe>, recipes: seq<RecipeId>, order: seq<IngredientId>): int {
    if order == [] then 0 else AmountFor(rows, recipes, order[0]) + SumOver(rows, recipes, order[1..])
  }

  /** What one row contributes to all groups in `order`. */
  function HitsOver(row: IngredientRecipe, recipes: seq<RecipeId>, order: seq<IngredientId>): int {
    if order == [] then 0 else Hit(row, recipes, order[0]) + HitsOver(row, recipes, order[1..])
  }

  lemma {:induction false} HitsOverOnce(row: IngredientRecipe, recipes: seq<RecipeId>, order: seq<IngredientId>)
    requires Distinct(order)
    ensures HitsOver(row, recipes, order) == if row.recipe in recipes && row.ingredient in order then row.amount else 0
  {
    if order != [] {
      var rest := order[1..];
      forall i, j | 0 <= i < j < |rest| ensures rest[i] != rest[j] {
        assert rest[i] == order[i + 1] && rest[j] == order[j + 1];
      }
      HitsOverOnce(row, recipes, rest);
      if order[0] == row.ingredient {
        forall j | 0 <= j < |rest| ensures rest[j] != row.ingredient {
          assert rest[j] == order[j + 1];
        }
      }
      assert order == [order[0]] + rest;
    }
  }

  lemma {:induction false} SumOverSplit(row: IngredientRecipe, rest: seq<IngredientRecipe>, recipes: seq<RecipeId>, order: seq<IngredientId>)
    ensures SumOver([row] + rest, recipes, order) == HitsOver(row, recipes, order) + SumOver(rest, recipes, order)
  {
    if order != [] {
      assert ([row] + rest)[1..] == rest;
      SumOverSplit(row, rest, recipes, order[1..]);
    }
  }

  /** Grouping loses and invents nothing: the amounts over all groups add up
      to the total amount over the cart's junction rows. */
  lemma {:induction false} GroupedSumsAddUp(rows: seq<IngredientRecipe>, recipes: seq<RecipeId>, order: seq<IngredientId>)
    requires Distinct(order)
    requires forall k :: 0 <= k < |rows| && rows[k].recipe in recipes ==> rows[k].ingredient in order
    ensures SumOver(rows, recipes, order) == CartTotal(rows, recipes)
  {
    if rows == [] {
      ZeroRowsSumZero(recipes, order);
    } else {
      var rest := rows[1..];
      assert rows == [rows[0]] + rest;
      SumOverSplit(rows[0], rest, recipes, order);
      HitsOverOnce(rows[0], recipes, order);
      forall k | 0 <= k < |rest| && rest[k].recipe in recipes ensures rest[k].ingredient in order {
        assert rest[k] == rows[k + 1];
      }
      GroupedSumsAddUp(rest, recipes, order);
    }
  }

  lemma {:induction false} ZeroRowsSumZero(recipes: seq<RecipeId>, order: seq<IngredientId>)
    ensures SumOver([], recipes, order) == 0
  {
    if order != [] {
      ZeroRowsSumZero(recipes, order[1..]);
    }
  }

  /** The totals of the exported list add up to the cart's total. */
  lemma ShoppingListTotals(user: UserId, cart: seq<UserRecipe>, junction: seq<IngredientRecipe>, order: seq<IngredientId>)
    requires Enumerates(order, BuyListKeys(junction, CartRecipes(cart, user)))
    ensures SumOver(junction, CartRecipes(cart, user), order) == CartTotal(junction, CartRecipes(cart, user))
  {
    var recipes := CartRecipes(cart, user);
    forall k | 0 <= k < |junction| && junction[k].recipe in recipes ensures junction[k].ingredient in order {
      assert junction[k].ingredient in BuyListKeys(junction, recipes);
    }
    GroupedSumsAddUp(junction, recipes, order);
  }

  /** An ingredient outside the groups adds nothing; with validated amounts
      (at least 1), every group has a positive amount. */
  lemma {:induction false} GroupAmounts(rows: seq<IngredientRecipe>, recipes: seq<RecipeId>, ingredient: IngredientId)
    requires forall k :: 0 <= k < |rows| ==> rows[k].amount >= MinIngredientValue
    ensures ingredient !in BuyListKeys(rows, recipes) ==> AmountFor(rows, recipes, ingredient) == 0
    ensures ingredient in BuyListKeys(rows, recipes) ==> AmountFor(rows, recipes, ingredient) >= 1
  {
    if rows != [] {
      var rest := rows[1..];
      GroupAmounts(rest, recipes, ingredient);
      assert BuyListKeys(rows, recipes) ==
        BuyListKeys(rest, recipes) + (if rows[0].recipe in recipes then {rows[0].ingredient} else {}) by {
        forall x | x in BuyListKeys(rows, recipes)
          ensures x in BuyListKeys(rest, recipes) || (rows[0].recipe in recipes && x == rows[0].ingredient)
        {
          var k :| 0 <= k < |rows| && rows[k].recipe in recipes && rows[k].ingredient == x;
          if k > 0 { assert rest[k - 1] == rows[k]; }
        }
        forall x | x in BuyListKeys(rest, recipes) ensures x in BuyListKeys(rows, recipes) {
          var k :| 0 <= k < |rest| && rest[k].recipe in recipes && rest[k].ingredient == x;
          assert rows[k + 1] == rest[k];
        }
      }
    }
  }

  /** A cart of two recipes, one with flour 200 and egg 2, the other with
      flour 100 and milk 1: the groups are flour 300, egg 2 and milk 1. */
  lemma ShoppingListExample()
    ensures var rows := [IngredientRecipe(1, 10, 200), IngredientRecipe(1, 11, 2),
                         IngredientRecipe(2, 10, 100), IngredientRecipe(2, 12, 1)];
            AmountFor(rows, [1, 2], 10) == 300 && AmountFor(rows, [1, 2], 11) == 2 &&
            AmountFor(rows, [1, 2], 12) == 1
  {
  }

  // --------------------------------------------------------------- unfollow

  /** `UserSubscribeViewSet.delete` as written, once the author exists: when
      the (user, author) edge exists it deletes `Follow.objects.get(author=author)`,
      which finds a row only if the author has exactly one follower. The
      result is the new Follow table. */
  function UnfollowAsWritten(follows: seq<Follow>, user: UserId, author: UserId): (r: Result<seq<Follow>, ApiError>)
    ensures r.Success? <==> Follow(user, author) in follows && |FollowersOf(follows, author)| == 1
    ensures Follow(user, author) !in follows ==> r == Failure(NotFound)
    ensures Follow(user, author) in follows && |FollowersOf(follows, author)| != 1 ==> r == Failure(MultipleObjectsReturned)
    ensures r.Success? ==> r.value == Without(follows, Follow(user, author))
  {
    if Follow(user, author) !in follows then Failure(NotFound)
    else
      var followers := FollowersOf(follows, author);
      if |followers| == 1 then
        assert Follow(user, author) in followers;
        Success(Without(follows, followers[0]))
      else Failure(MultipleObjectsReturned)
  }

  /** The evidently intended unsubscribe: delete exactly the (user, author)
      edge, or report not-found when there is none. */
  function Unfollow(follows: seq<Follow>, user: UserId, author: UserId): (r: Result<seq<Follow>, ApiError>)
    ensures r.Success? <==> Follow(user, author) in follows
    ensures r.Failure? ==> r.error == NotFound
    ensures r.Success? ==> forall f :: f in r.value <==> f in follows && f != Follow(user, author)
  {
    if Follow(user, author) !in follows then Failure(NotFound)
    else Success(Without(follows, Follow(user, author)))
  }

  /** Where the code as written succeeds, it agrees with the intended
      unsubscribe; the intended one also succeeds wherever the edge exists. */
  lemma UnfollowAsWrittenIsPartial(follows: seq<Follow>, user: UserId, author: UserId)
    ensures UnfollowAsWritten(follows, user, author).Success? ==> UnfollowAsWritten(follows, user, author) == Unfollow(follows, user, author)
    ensures Unfollow(follows, user, author).Failure? ==> UnfollowAsWritten(follows, user, author) == Unfollow(follows, user, author)
  {
  }

  /** The input that shows the bug: user 1 and user 2 both follow author 3;
      user 1's unsubscribe fails as written, and the intended one succeeds
      leaving user 2's edge alone. */
  lemma {:induction false} UnfollowWithTwoFollowers()
    ensures UnfollowAsWritten([Follow(1, 3), Follow(2, 3)], 1, 3) == Failure(MultipleObjectsReturned)
    ensures Unfollow([Follow(1, 3), Follow(2, 3)], 1, 3) == Success([Follow(2, 3)])
  {
    var follows := [Follow(1, 3), Follow(2, 3)];
    assert Follow(1, 3) in FollowersOf(follows, 3) && Follow(2, 3) in FollowersOf(follows, 3);
    var tail: seq<Follow> := [Follow(2, 3)];
    assert follows == [Follow(1, 3)] + tail;
    assert tail == [Follow(2, 3)] + [];
    FollowersOfCons(tail, Follow(1, 3), 3);
    FollowersOfCons([], Follow(2, 3), 3);
    assert FollowersOf(follows, 3) == [Follow(1, 3), Follow(2, 3)];
    WithoutCons(tail, Follow(1, 3), Follow(1, 3));
    WithoutCons([], Follow(2, 3), Follow(1, 3));
    assert Without([], Follow(1, 3)) == [];
    assert Without(follows, Follow(1, 3)) == Without(tail, Follow(1, 3)) == [Follow(2, 3)];
  }

  /** Subscribing and then unsubscribing gives the Follow table back. */
  lemma FollowThenUnfollow(follows: seq<Follow>, user: UserId, author: UserId)
    requires Serializers.ValidateFollow(follows, user, author).Success?
    ensures Unfollow(follows + [Follow(user, author)], user, author) == Success(follows)
  {
    WithoutAppend(follows, Follow(user, author));
  }
}
