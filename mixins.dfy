/** api/mixins.py: `RecipeValidatorMixin`, the newer recipe-submission
    validation. The error constants of the api package are opaque tokens. */
module Mixins {
  import opened Wrappers
  import opened Collections

  /** One submitted ingredient, the dict `{'id': ..., 'amount': ...}`; dict
      equality is equality of both entries. */
  datatype IngredientEntry = IngredientEntry(id: int, amount: int)

  datatype RecipeError =
    | NoIngredients          // NO_INGREDIENTS_ERROR
    | NoTags                 // NO_TAGS_ERROR
    | NotExistIngredient     // NOT_EXIST_INGREDIENT_ERROR
    | AmountLtOne            // AMOUNT_LT_ONE_ERROR
    | DuplicateIngredient    // DUPLICATE_INGREDIENT_ERROR
    | DuplicateTag           // DUPLICATE_TAG_ERROR

  /** The part of the submitted data that `validate` inspects; a missing key is None. */
  datatype RecipeData = RecipeData(ingredients: Option<seq<IngredientEntry>>, tags: Option<seq<int>>)

  /** Python truthiness of `data.get(key)` for a list value: present and non-empty. */
  predicate Truthy<T>(v: Option<seq<T>>) {
    v.Some? && |v.value| > 0
  }

  /** `validate`: ingredients are checked before tags; accepted data is returned unchanged. */
  function Validate(data: RecipeData): (r: Result<RecipeData, RecipeError>)
    ensures r.Success? <==> Truthy(data.ingredients) && Truthy(data.tags)
    ensures r.Success? ==> r.value == data
    ensures !Truthy(data.ingredients) ==> r == Failure(NoIngredients)
    ensures Truthy(data.ingredients) && !Truthy(data.tags) ==> r == Failure(NoTags)
  {
    if !Truthy(data.ingredients) then Failure(NoIngredients)
    else if !Truthy(data.tags) then Failure(NoTags)
    else Success(data)
  }

  /** The error the loop of `validate_ingredients` raises on entry `e` when
      the entries already accepted are `seen`, in the order of its checks;
      None when `e` is accepted. `known` is the set of ids in the ingredient table. */
  function EntryFault(known: set<int>, seen: seq<IngredientEntry>, e: IngredientEntry): Option<RecipeError> {
    if e.id !in known then Some(NotExistIngredient)
    else if e.amount < 1 then Some(AmountLtOne)
    else if e in seen then Some(DuplicateIngredient)
    else None
  }

  /** Every entry up to `n` passes the loop's checks. */
  ghost predicate CleanUpTo(known: set<int>, s: seq<IngredientEntry>, n: int)
    requires 0 <= n <= |s|
  {
    forall k :: 0 <= k < n ==> EntryFault(known, s[..k], s[k]) == None
  }

  /** The declarative acceptance condition: every id exists, every amount is
      at least 1, and no whole entry occurs twice. */
  ghost predicate Acceptable(known: set<int>, s: seq<IngredientEntry>) {
    (forall k :: 0 <= k < |s| ==> s[k].id in known && s[k].amount >= 1) && Distinct(s)
  }

  /** Passing the checks one entry at a time is the declarative condition. */
  lemma {:induction false} CleanIffAcceptable(known: set<int>, s: seq<IngredientEntry>)
    ensures CleanUpTo(known, s, |s|) <==> Acceptable(known, s)
  {
    if CleanUpTo(known, s, |s|) {
      forall i, j | 0 <= i < j < |s| ensures s[i] != s[j] {
        assert EntryFault(known, s[..j], s[j]) == None;
        assert s[i] == s[..j][i];
      }
      forall k | 0 <= k < |s| ensures s[k].id in known && s[k].amount >= 1 {
        assert EntryFault(known, s[..k], s[k]) == None;
      }
    }
    if Acceptable(known, s) {
      forall k | 0 <= k < |s| ensures EntryFault(known, s[..k], s[k]) == None {
        forall i | 0 <= i < k ensures s[..k][i] != s[k] {
          assert s[..k][i] == s[i];
        }
      }
    }
  }

  /** `validate_ingredients`: an empty list is NO_INGREDIENTS_ERROR; otherwise
      the first entry that fails a check decides the error; an accepted list
      is returned unchanged. */
  method ValidateIngredients(known: set<int>, ingredients: seq<IngredientEntry>)
    returns (r: Result<seq<IngredientEntry>, RecipeError>)
    ensures r.Success? <==> |ingredients| > 0 && Acceptable(known, ingredients)
    ensures r.Success? ==> r.value == ingredients
    ensures |ingredients| == 0 ==> r == Failure(NoIngredients)
    ensures r.Failure? && |ingredients| > 0 ==>
      exists k :: 0 <= k < |ingredients| && CleanUpTo(known, ingredients, k) &&
        EntryFault(known, ingredients[..k], ingredients[k]) == Some(r.error)
  {
    CleanIffAcceptable(known, ingredients);
    if |ingredients| == 0 {
      return Failure(NoIngredients);
    }
    var allIngredients: seq<IngredientEntry> := [];
    var i := 0;
    while i < |ingredients|
      invariant 0 <= i <= |ingredients|
      invariant allIngredients == ingredients[..i]
      invariant CleanUpTo(known, ingredients, i)
    {
      var ingredient := ingredients[i];
      if ingredient.id !in known {
        return Failure(NotExistIngredient);
      }
      if ingredient.amount < 1 {
        return Failure(AmountLtOne);
      }
      if ingredient in allIngredients {
        return Failure(DuplicateIngredient);
      }
      allIngredients := allIngredients + [ingredient];
      i := i + 1;
    }
    assert ingredients[..i] == ingredients;
    return Success(ingredients);
  }

  /** `validate_tags`: exactly the non-empty duplicate-free lists pass, unchanged. */
  method ValidateTags(tags: seq<int>) returns (r: Result<seq<int>, RecipeError>)
    ensures r.Success? <==> |tags| > 0 && Distinct(tags)
    ensures r.Success? ==> r.value == tags
    ensures |tags| == 0 ==> r == Failure(NoTags)
    ensures |tags| > 0 && !Distinct(tags) ==> r == Failure(DuplicateTag)
  {
    if |tags| == 0 {
      return Failure(NoTags);
    }
    var allTags: seq<int> := [];
    var i := 0;
    while i < |tags|
      invariant 0 <= i <= |tags|
      invariant allTags == tags[..i]
      invariant Distinct(allTags)
    {
      var tag := tags[i];
      if tag in allTags {
        assert !Distinct(tags) by {
          var j :| 0 <= j < i && tags[..i][j] == tag;
          assert tags[j] == tags[i];
        }
        return Failure(DuplicateTag);
      }
      AppendDistinct(allTags, tag);
      allTags := allTags + [tag];
      assert allTags == tags[..i + 1];
      i := i + 1;
    }
    assert allTags == tags;
    return Success(tags);
  }

  /** The mixin's notion of a duplicate is the whole entry: the same id with
      two different amounts is accepted. */
  lemma SameIdTwoAmountsAccepted(known: set<int>)
    requires 1 in known
    ensures Acceptable(known, [IngredientEntry(1, 2), IngredientEntry(1, 3)])
  {
  }

  /** The same entry twice is the duplicate error, raised at its second occurrence. */
  lemma {:induction false} RepeatedEntryIsDuplicate(known: set<int>, e: IngredientEntry)
    requires e.id in known && e.amount >= 1
    ensures CleanUpTo(known, [e, e], 1)
    ensures EntryFault(known, [e, e][..1], [e, e][1]) == Some(DuplicateIngredient)
    ensures !Acceptable(known, [e, e])
  {
    assert [e, e][..1] == [e];
    assert [e, e][..0] == [];
  }
}
