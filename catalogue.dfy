/** The read queries over the catalogue: the GetAll* operations of the lunch decision
    and data management services, as Where / Include / OrderBy / ThenBy over the tables. */
module Catalogue {
  import opened Wrappers
  import opened Models
  import opened Data
  import opened Ordering

  /** Stores.Where(s => s.IsActive), in table order. */
  function ActiveStores(stores: seq<Store>): (r: seq<Store>)
    ensures forall s :: multiset(r)[s] == if s.isActive then multiset(stores)[s] else 0
  {
    if stores == [] then []
    else
      assert stores == [stores[0]] + stores[1..];
      (if stores[0].isActive then [stores[0]] else []) + ActiveStores(stores[1..])
  }

  function StoreKey(s: Store): SortKey { SortKey(s.name, "") }

  /** GetAllStoresAsync: the active stores, ordered by name. */
  function ActiveStoresByName(stores: seq<Store>): (r: seq<Store>)
    ensures SortedBy(r, StoreKey)
    ensures forall s :: multiset(r)[s] == if s.isActive then multiset(stores)[s] else 0
  {
    SortBy(ActiveStores(stores), StoreKey)
  }

  /** Every store the listing shows is active, and every active store is shown. */
  lemma ActiveStoresListed(stores: seq<Store>, s: Store)
    ensures s in ActiveStoresByName(stores) <==> s in stores && s.isActive
  {
    var r := ActiveStoresByName(stores);
    assert s in r <==> multiset(r)[s] > 0;
    assert s in stores <==> multiset(stores)[s] > 0;
  }

  function FoodTypeKey(f: FoodType): SortKey { SortKey(f.name, "") }

  /** GetAllFoodTypesAsync: every food type, ordered by name. */
  function FoodTypesByName(foodTypes: seq<FoodType>): (r: seq<FoodType>)
    ensures SortedBy(r, FoodTypeKey)
    ensures multiset(r) == multiset(foodTypes)
  {
    SortBy(foodTypes, FoodTypeKey)
  }

  /** A meal loaded together with its FoodType navigation property. */
  datatype MealEntry = MealEntry(meal: Meal, foodType: FoodType)

  /** Meals.Include(m => m.FoodType): a required navigation, so an inner join; a meal whose
      food type is missing would not be returned. */
  function WithFoodType(meals: seq<Meal>, foodTypes: seq<FoodType>): (r: seq<MealEntry>)
    ensures |r| <= |meals|
    ensures forall e :: e in r <==> e.meal in meals && FindFoodType(foodTypes, e.meal.foodTypeId) == Some(e.foodType)
    ensures forall e :: multiset(r)[e] ==
              if FindFoodType(foodTypes, e.meal.foodTypeId) == Some(e.foodType) then multiset(meals)[e.meal] else 0
  {
    if meals == [] then []
    else
      assert meals == [meals[0]] + meals[1..];
      var rest := WithFoodType(meals[1..], foodTypes);
      match FindFoodType(foodTypes, meals[0].foodTypeId)
      case None => rest
      case Some(f) => [MealEntry(meals[0], f)] + rest
  }

  function MealKey(e: MealEntry): SortKey { SortKey(e.foodType.name, e.meal.name) }

  /** GetAllMealsAsync: the meals with their food type, ordered by food type name, then by
      meal name. */
  function MealsByFoodTypeThenName(meals: seq<Meal>, foodTypes: seq<FoodType>): (r: seq<MealEntry>)
    ensures SortedBy(r, MealKey)
    ensures multiset(r) == multiset(WithFoodType(meals, foodTypes))
    ensures forall e :: e in r <==> e.meal in meals && FindFoodType(foodTypes, e.meal.foodTypeId) == Some(e.foodType)
  {
    var joined := WithFoodType(meals, foodTypes);
    var r := SortBy(joined, MealKey);
    assert forall e :: e in r <==> e in joined by {
      forall e ensures e in r <==> e in joined {
        assert e in r <==> multiset(r)[e] > 0;
        assert e in joined <==> multiset(joined)[e] > 0;
      }
    }
    r
  }

  /** With every meal's food type on record, the listing leaves no meal out. */
  lemma AllMealsListed(meals: seq<Meal>, foodTypes: seq<FoodType>, m: Meal)
    requires forall x :: x in meals ==> HasFoodType(foodTypes, x.foodTypeId)
    requires m in meals
    ensures exists e :: e in MealsByFoodTypeThenName(meals, foodTypes) && e.meal == m
  {
    var f := FindFoodType(foodTypes, m.foodTypeId).value;
    assert MealEntry(m, f) in MealsByFoodTypeThenName(meals, foodTypes);
  }

  /** With distinct meal rows (meal ids are keys), the listing shows each meal exactly once. */
  lemma EachMealListedOnce(meals: seq<Meal>, foodTypes: seq<FoodType>, m: Meal)
    requires forall i, j :: 0 <= i < j < |meals| ==> meals[i].id != meals[j].id
    requires forall x :: x in meals ==> HasFoodType(foodTypes, x.foodTypeId)
    requires m in meals
    ensures var e := MealEntry(m, FindFoodType(foodTypes, m.foodTypeId).value);
            multiset(MealsByFoodTypeThenName(meals, foodTypes))[e] == 1
  {
    DistinctRowsOnce(meals, m);
  }

  /** A row of a table whose ids are distinct occurs in it once. */
  lemma {:induction false} DistinctRowsOnce(meals: seq<Meal>, m: Meal)
    requires forall i, j :: 0 <= i < j < |meals| ==> meals[i].id != meals[j].id
    requires m in meals
    ensures multiset(meals)[m] == 1
  {
    assert meals == [meals[0]] + meals[1..];
    if meals[0] == m {
      assert forall k :: 0 <= k < |meals[1..]| ==> meals[1..][k] != m by {
        forall k | 0 <= k < |meals[1..]| ensures meals[1..][k] != m {
          assert meals[1..][k] == meals[k + 1];
        }
      }
    } else {
      DistinctRowsOnce(meals[1..], m);
    }
  }
}
