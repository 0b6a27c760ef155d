/** api/serializers.py: the checks of RecipeIngredientSerializer,
    RecipePostSerializer and FollowSerializer, and `get_is_subscribed`.
    The operations of these serializers that write to the store are methods
    of Storage.Store. */
module Serializers {
  import opened Wrappers
  import opened Collections
  import opened Mixins
  import opened UsersModels
  import opened RecipesModels

  datatype SerializerError =
    | AmountNotPositive        // 'Количество должно быть больше 0'
    | IngredientNotFound       // get_object_or_404: a 404 response
    | IngredientRepeated       // 'Такой ингридиент уже есть'
    | TagRequired              // 'Нужен тег'
    | TagUnknown(name: string) // 'Тэга {tag_name} нет'
    | MissingKey(key: string)  // `data[key]` raises KeyError
    | CookingTimeTooShort      // 'Время приготовления больше 1 минуты'
    | NoIngredientsGiven       // 'Количество ингредиентов не может быть 0'
    | AmountZero               // 'Количество не может быть 0'

  /** `RecipeIngredientSerializer.validate_amount`: positive amounts pass unchanged. */
  function ValidateAmount(value: int): (r: Result<int, SerializerError>)
    ensures r.Success? <==> value > 0
    ensures r.Success? ==> r.value == value
    ensures r.Failure? ==> r.error == AmountNotPositive
  {
    if value <= 0 then Failure(AmountNotPositive) else Success(value)
  }

  /** `RecipePostSerializer.validate_cooking_time`: times of at least 1 pass unchanged. */
  function ValidateCookingTime(cookingTime: int): (r: Result<int, SerializerError>)
    ensures r.Success? <==> cookingTime >= MinCookingValue
    ensures r.Success? ==> r.value == cookingTime
    ensures r.Failure? ==> r.error == CookingTimeTooShort
  {
    if cookingTime < 1 then Failure(CookingTimeTooShort) else Success(cookingTime)
  }

  /** `RecipePostSerializer.validate_ingredients`: the list must be non-empty
      and every amount at least 1; an accepted list comes back unchanged. */
  method ValidateIngredientsField(ingredients: seq<IngredientEntry>) returns (r: Result<seq<IngredientEntry>, SerializerError>)
    ensures r.Success? <==> |ingredients| > 0 && forall k :: 0 <= k < |ingredients| ==> ingredients[k].amount >= 1
    ensures r.Success? ==> r.value == ingredients
    ensures |ingredients| == 0 ==> r == Failure(NoIngredientsGiven)
    ensures |ingredients| > 0 && r.Failure? ==> r.error == AmountZero
  {
    if |ingredients| == 0 {
      return Failure(NoIngredientsGiven);
    }
    for i := 0 to |ingredients|
      invariant forall k :: 0 <= k < i ==> ingredients[k].amount >= 1
    {
      if ingredients[i].amount < 1 {
        return Failure(AmountZero);
      }
    }
    return Success(ingredients);
  }

  /** The submitted data `RecipePostSerializer.validate` reads; a missing key
      is None. Tags arrive already resolved to Tag rows. */
  datatype PostData = PostData(ingredients: Option<seq<IngredientEntry>>, tags: Option<seq<Tag>>)

  /** The ingredient ids of the entries, in order. */
  function IdsOf(s: seq<IngredientEntry>): (ids: seq<int>)
    ensures |ids| == |s| && forall k :: 0 <= k < |s| ==> ids[k] == s[k].id
  {
    seq(|s|, k requires 0 <= k < |s| => s[k].id)
  }

  /** The error `validate`'s ingredient loop raises on entry `e` when the
      ingredients resolved before it have ids `seen`: first the lookup, then
      the identity check. Two resolved ingredients are the same object exactly
      when their ids are equal. */
  function PostFault(known: set<int>, seen: seq<int>, e: IngredientEntry): Option<SerializerError> {
    if e.id !in known then Some(IngredientNotFound)
    else if e.id in seen then Some(IngredientRepeated)
    else None
  }

  ghost predicate PostCleanUpTo(known: set<int>, s: seq<IngredientEntry>, n: int)
    requires 0 <= n <= |s|
  {
    forall k :: 0 <= k < n ==> PostFault(known, IdsOf(s[..k]), s[k]) == None
  }

  /** No ingredient id occurs twice. */
  ghost predicate DistinctIds(s: seq<IngredientEntry>) {
    forall i, j :: 0 <= i < j < |s| ==> s[i].id != s[j].id
  }

  /** Declarative form of the ingredient loop's success: every id resolves
      and no ingredient is named twice. */
  ghost predicate IngredientsResolve(known: set<int>, s: seq<IngredientEntry>) {
    (forall k :: 0 <= k < |s| ==> s[k].id in known) && DistinctIds(s)
  }

  lemma {:induction false} PostCleanIffResolve(known: set<int>, s: seq<IngredientEntry>)
    ensures PostCleanUpTo(known, s, |s|) <==> IngredientsResolve(known, s)
  {
    if PostCleanUpTo(known, s, |s|) {
      forall i, j | 0 <= i < j < |s| ensures s[i].id != s[j].id {
        assert PostFault(known, IdsOf(s[..j]), s[j]) == None;
        assert IdsOf(s[..j])[i] == s[i].id;
      }
      forall k | 0 <= k < |s| ensures s[k].id in known {
        assert PostFault(known, IdsOf(s[..k]), s[k]) == None;
      }
    }
    if IngredientsResolve(known, s) {
      forall k | 0 <= k < |s| ensures PostFault(known, IdsOf(s[..k]), s[k]) == None {
        forall i | 0 <= i < k ensures IdsOf(s[..k])[i] != s[k].id {
          assert IdsOf(s[..k])[i] == s[i].id;
        }
      }
    }
  }

  /** `Tag.objects.filter(name=...).exists()`. */
  predicate TagNamed(tagStore: set<Tag>, name: string) {
    exists t :: t in tagStore && t.name == name
  }

  ghost predicate TagsNamedUpTo(tagStore: set<Tag>, tags: seq<Tag>, n: int)
    requires 0 <= n <= |tags|
  {
    forall k :: 0 <= k < n ==> TagNamed(tagStore, tags[k].name)
  }

  /** `RecipePostSerializer.validate`. `known` is the set of ingredient ids in
      the store and `tagStore` its tag rows. The ingredient loop runs first and
      its first failing entry decides the error; then the tags must be present
      and non-empty and each must be named by some stored tag. Accepted data
      is returned unchanged. */
  method ValidatePost(known: set<int>, tagStore: set<Tag>, data: PostData) returns (r: Result<PostData, SerializerError>)
    ensures r.Success? <==>
      data.ingredients.Some? && IngredientsResolve(known, data.ingredients.value) &&
      data.tags.Some? && |data.tags.value| > 0 && TagsNamedUpTo(tagStore, data.tags.value, |data.tags.value|)
    ensures r.Success? ==> r.value == data
    ensures data.ingredients.None? ==> r == Failure(MissingKey("ingredients"))
    ensures data.ingredients.Some? && !IngredientsResolve(known, data.ingredients.value) ==>
      exists k :: 0 <= k < |data.ingredients.value| && PostCleanUpTo(known, data.ingredients.value, k) &&
        PostFault(known, IdsOf(data.ingredients.value[..k]), data.ingredients.value[k]) == Some(r.error)
    ensures data.ingredients.Some? && IngredientsResolve(known, data.ingredients.value) ==>
      (data.tags.None? ==> r == Failure(MissingKey("tags"))) &&
      (data.tags == Some([]) ==> r == Failure(TagRequired)) &&
      (data.tags.Some? && |data.tags.value| > 0 && r.Failure? ==>
        exists k :: 0 <= k < |data.tags.value| && TagsNamedUpTo(tagStore, data.tags.value, k) &&
          !TagNamed(tagStore, data.tags.value[k].name) && r.error == TagUnknown(data.tags.value[k].name))
  {
    if data.ingredients.None? {
      return Failure(MissingKey("ingredients"));
    }
    var ingredients := data.ingredients.value;
    PostCleanIffResolve(known, ingredients);
    var ingredientList: seq<int> := [];
    var i := 0;
    while i < |ingredients|
      invariant 0 <= i <= |ingredients|
      invariant ingredientList == IdsOf(ingredients[..i])
      invariant PostCleanUpTo(known, ingredients, i)
    {
      var items := ingredients[i];
      if items.id !in known {
        return Failure(IngredientNotFound);
      }
      if items.id in ingredientList {
        return Failure(IngredientRepeated);
      }
      ingredientList := ingredientList + [items.id];
      assert ingredients[..i + 1] == ingredients[..i] + [items];
      i := i + 1;
    }
    assert ingredients[..i] == ingredients;
    if data.tags.None? {
      return Failure(MissingKey("tags"));
    }
    var tags := data.tags.value;
    if |tags| == 0 {
      return Failure(TagRequired);
    }
    for j := 0 to |tags|
      invariant TagsNamedUpTo(tagStore, tags, j)
    {
      if !TagNamed(tagStore, tags[j].name) {
        return Failure(TagUnknown(tags[j].name));
      }
    }
    return Success(data);
  }

  /** Tags the primary-key field resolved are stored rows, so the name check
      of `validate` cannot fail for them. */
  lemma StoredTagsAreNamed(tagStore: set<Tag>, tags: seq<Tag>)
    requires forall k :: 0 <= k < |tags| ==> tags[k] in tagStore
    ensures TagsNamedUpTo(tagStore, tags, |tags|)
  {
    forall k | 0 <= k < |tags| ensures TagNamed(tagStore, tags[k].name) {
      assert tags[k] in tagStore && tags[k].name == tags[k].name;
    }
  }

  /** The serializer's duplicate notion (ingredient identity) is stricter
      than the mixin's (whole entries): what it accepts, the mixin accepts. */
  lemma DistinctIdsImpliesDistinctEntries(s: seq<IngredientEntry>)
    requires DistinctIds(s)
    ensures Distinct(s)
  {
  }

  /** The two notions differ: the same id with two amounts passes the mixin
      and is IngredientRepeated here, at its second occurrence. */
  lemma {:induction false} DuplicateNotionsDiffer(known: set<int>)
    requires 1 in known
    ensures Mixins.Acceptable(known, [IngredientEntry(1, 2), IngredientEntry(1, 3)])
    ensures !IngredientsResolve(known, [IngredientEntry(1, 2), IngredientEntry(1, 3)])
    ensures PostFault(known, IdsOf([IngredientEntry(1, 2), IngredientEntry(1, 3)][..1]), IngredientEntry(1, 3)) == Some(IngredientRepeated)
  {
    var s := [IngredientEntry(1, 2), IngredientEntry(1, 3)];
    assert s[..1] == [IngredientEntry(1, 2)];
    assert IdsOf(s[..1])[0] == 1;
    assert s[0].id == s[1].id;
  }

  datatype FollowError =
    | AlreadySubscribed   // 'Вы уже подписаны на этого пользователя' (UniqueTogetherValidator)
    | SelfSubscription    // 'Нельзя подписаться себя' (validate)

  /** FollowSerializer's validation of a new (user, author) edge: the
      unique-together validator runs before `validate`. */
  function ValidateFollow(follows: seq<Follow>, user: UserId, author: UserId): (r: Result<Follow, FollowError>)
    ensures r.Success? <==> Follow(user, author) !in follows && user != author
    ensures r.Success? ==> r.value == Follow(user, author)
    ensures Follow(user, author) in follows ==> r == Failure(AlreadySubscribed)
    ensures Follow(user, author) !in follows && user == author ==> r == Failure(SelfSubscription)
  {
    if Follow(user, author) in follows then Failure(AlreadySubscribed)
    else if user == author then Failure(SelfSubscription)
    else Success(Follow(user, author))
  }

  /** An accepted edge keeps the Follow table duplicate-free and is never a self-follow. */
  lemma {:induction false} AcceptedFollowKeepsTableValid(follows: seq<Follow>, userIds: set<UserId>, user: UserId, author: UserId)
    requires FollowsValid(follows, userIds) && user in userIds && author in userIds
    requires ValidateFollow(follows, user, author).Success?
    ensures FollowsValid(follows + [Follow(user, author)], userIds)
    ensures user != author
  {
    AppendDistinct(follows, Follow(user, author));
  }

  /** `UserSerializer.get_is_subscribed`: false for an anonymous request,
      otherwise whether the requesting user follows `obj`. */
  function IsSubscribed(follows: seq<Follow>, requester: Option<UserId>, obj: UserId): (r: bool)
    ensures r <==> requester.Some? && exists k :: 0 <= k < |follows| && follows[k] == Follow(requester.value, obj)
  {
    requester.Some? && Follow(requester.value, obj) in follows
  }
}
