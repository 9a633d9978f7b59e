/** Catalogue maintenance (Services/DataManagementService.cs): the three guarded inserts
    and the listing queries. Each insert runs its checks in a fixed order, throws the
    first one that fails, and otherwise appends exactly one row. */
module DataManagement {
  import opened Wrappers
  import opened Models
  import opened Text
  import opened Data
  import opened Ordering
  import opened Catalogue

  // ---------------------------------------------------------------------------------
  // The guards, in the order the service runs them

  /** Why AddStoreAsync refuses a store, if it does. */
  function StoreRejection(stores: seq<Store>, name: Option<string>, genre: Option<string>): (e: Option<Error>)
    ensures e == Some(ArgumentException("name")) <==> IsNullOrWhiteSpace(name)
    ensures e == Some(ArgumentException("genre")) <==> !IsNullOrWhiteSpace(name) && IsNullOrWhiteSpace(genre)
    ensures e == Some(InvalidOperationException(DuplicateStore)) <==>
              !IsNullOrWhiteSpace(name) && !IsNullOrWhiteSpace(genre) && HasStoreNamed(stores, name.value)
    ensures e.None? <==> !IsNullOrWhiteSpace(name) && !IsNullOrWhiteSpace(genre) && !HasStoreNamed(stores, name.value)
  {
    if IsNullOrWhiteSpace(name) then Some(ArgumentException("name"))
    else if IsNullOrWhiteSpace(genre) then Some(ArgumentException("genre"))
    else if HasStoreNamed(stores, name.value) then Some(InvalidOperationException(DuplicateStore))
    else None
  }

  /** Why AddMealAsync refuses a meal, if it does. */
  function MealRejection(meals: seq<Meal>, foodTypes: seq<FoodType>, name: Option<string>, foodTypeId: int): (e: Option<Error>)
    ensures e == Some(ArgumentException("name")) <==> IsNullOrWhiteSpace(name)
    ensures e == Some(ArgumentException("foodTypeId")) <==>
              !IsNullOrWhiteSpace(name) && !HasFoodType(foodTypes, foodTypeId)
    ensures e == Some(InvalidOperationException(DuplicateMeal)) <==>
              && !IsNullOrWhiteSpace(name) && HasFoodType(foodTypes, foodTypeId)
              && HasMealKey(meals, name.value, foodTypeId)
    ensures e.None? <==>
              && !IsNullOrWhiteSpace(name) && HasFoodType(foodTypes, foodTypeId)
              && !HasMealKey(meals, name.value, foodTypeId)
  {
    if IsNullOrWhiteSpace(name) then Some(ArgumentException("name"))
    else if !HasFoodType(foodTypes, foodTypeId) then Some(ArgumentException("foodTypeId"))
    else if HasMealKey(meals, name.value, foodTypeId) then Some(InvalidOperationException(DuplicateMeal))
    else None
  }

  /** Why LinkStoreMealAsync refuses a link, if it does. Stores count whether active or not. */
  function LinkRejection(stores: seq<Store>, meals: seq<Meal>, storeMeals: seq<StoreMeal>,
                         storeId: int, mealId: int): (e: Option<Error>)
    ensures e == Some(ArgumentException("storeId")) <==> !HasStore(stores, storeId)
    ensures e == Some(ArgumentException("mealId")) <==> HasStore(stores, storeId) && !HasMeal(meals, mealId)
    ensures e == Some(InvalidOperationException(DuplicateLink)) <==>
              HasStore(stores, storeId) && HasMeal(meals, mealId) && HasLink(storeMeals, storeId, mealId)
    ensures e.None? <==>
              HasStore(stores, storeId) && HasMeal(meals, mealId) && !HasLink(storeMeals, storeId, mealId)
  {
    if !HasStore(stores, storeId) then Some(ArgumentException("storeId"))
    else if !HasMeal(meals, mealId) then Some(ArgumentException("mealId"))
    else if HasLink(storeMeals, storeId, mealId) then Some(InvalidOperationException(DuplicateLink))
    else None
  }

  // ---------------------------------------------------------------------------------
  // What the guards promise about repeated inserts

  /** Once a store is added, adding its name again is refused, whatever the genre. */
  lemma StoreNameTakenAfterAdd(stores: seq<Store>, s: Store, genre: Option<string>)
    requires !IsNullOrWhiteSpace(Some(s.name)) && !IsNullOrWhiteSpace(genre)
    ensures StoreRejection(stores + [s], Some(s.name), genre) == Some(InvalidOperationException(DuplicateStore))
  {
    assert s in stores + [s];
  }

  /** The meal key is (name, food type): the same name under another food type is accepted. */
  lemma SameNameOtherFoodTypeAccepted(meals: seq<Meal>, foodTypes: seq<FoodType>, m: Meal, foodTypeId: int)
    requires forall x :: x in meals ==> HasFoodType(foodTypes, x.foodTypeId)
    requires m in meals && m.foodTypeId != foodTypeId
    requires HasFoodType(foodTypes, foodTypeId) && !HasMealKey(meals, m.name, foodTypeId)
    requires !IsNullOrWhiteSpace(Some(m.name))
    ensures MealRejection(meals, foodTypes, Some(m.name), foodTypeId).None?
    ensures MealRejection(meals, foodTypes, Some(m.name), m.foodTypeId) == Some(InvalidOperationException(DuplicateMeal))
  {
  }

  /** Once a pair is linked, linking it again is refused. */
  lemma PairTakenAfterLink(stores: seq<Store>, meals: seq<Meal>, storeMeals: seq<StoreMeal>, sm: StoreMeal)
    requires HasStore(stores, sm.storeId) && HasMeal(meals, sm.mealId)
    ensures LinkRejection(stores, meals, storeMeals + [sm], sm.storeId, sm.mealId)
              == Some(InvalidOperationException(DuplicateLink))
  {
    assert sm in storeMeals + [sm];
  }

  /** Appending a link the guard accepts keeps the composite key (StoreId, MealId) unique:
      by induction, any sequence of successful links does. */
  lemma LinkKeepsPairsUnique(stores: seq<Store>, meals: seq<Meal>, storeMeals: seq<StoreMeal>, sm: StoreMeal)
    requires LinksOk(storeMeals, stores, meals)
    requires LinkRejection(stores, meals, storeMeals, sm.storeId, sm.mealId).None?
    ensures LinksOk(storeMeals + [sm], stores, meals)
  {
    var r := storeMeals + [sm];
    forall i, j | 0 <= i < j < |r| ensures r[i].storeId != r[j].storeId || r[i].mealId != r[j].mealId {
      if j == |storeMeals| {
        assert r[i] in storeMeals;
      }
    }
  }

  // ---------------------------------------------------------------------------------
  // The service

  class DataManagementService {
    const db: AppDbContext

    constructor (db: AppDbContext)
      ensures this.db == db
    {
      this.db := db;
    }

    /** AddStoreAsync; `None` stands for a null argument. */
    method AddStore(name: Option<string>, genre: Option<string>) returns (r: Result<Store, Error>)
      requires db.Valid()
      modifies db`stores, db`nextStoreId
      ensures db.Valid()
      ensures r.Failure? <==> StoreRejection(old(db.stores), name, genre).Some?
      ensures r.Failure? ==> r.error == StoreRejection(old(db.stores), name, genre).value
                             && db.stores == old(db.stores) && db.nextStoreId == old(db.nextStoreId)
      ensures r.Success? ==> && r.value == Store(old(db.nextStoreId), name.value, genre.value, true)
                             && db.stores == old(db.stores) + [r.value]
                             && db.nextStoreId == old(db.nextStoreId) + 1
    {
      var rejection := StoreRejection(db.stores, name, genre);
      if rejection.Some? {
        return Failure(rejection.value);
      }
      var store := Store(db.nextStoreId, name.value, genre.value, true);
      StoresOkAfterAppend(db.stores, db.nextStoreId, store);
      RowAddedKeepsStores(db.storeMeals, db.lunchHistories, db.stores, store);
      db.stores := db.stores + [store];
      db.nextStoreId := db.nextStoreId + 1;
      r := Success(store);
    }

    /** AddMealAsync; a null description is stored as the empty string. */
    method AddMeal(name: Option<string>, foodTypeId: int, description: Option<string>) returns (r: Result<Meal, Error>)
      requires db.Valid()
      modifies db`meals, db`nextMealId
      ensures db.Valid()
      ensures r.Failure? <==> MealRejection(old(db.meals), db.foodTypes, name, foodTypeId).Some?
      ensures r.Failure? ==> r.error == MealRejection(old(db.meals), db.foodTypes, name, foodTypeId).value
                             && db.meals == old(db.meals) && db.nextMealId == old(db.nextMealId)
      ensures r.Success? ==> && r.value == Meal(old(db.nextMealId), name.value,
                                                if description.Some? then description.value else "", foodTypeId)
                             && db.meals == old(db.meals) + [r.value]
                             && db.nextMealId == old(db.nextMealId) + 1
    {
      var rejection := MealRejection(db.meals, db.foodTypes, name, foodTypeId);
      if rejection.Some? {
        return Failure(rejection.value);
      }
      var meal := Meal(db.nextMealId, name.value, if description.Some? then description.value else "", foodTypeId);
      MealsOkAfterAppend(db.meals, db.foodTypes, db.nextMealId, meal);
      RowAddedKeepsMeals(db.storeMeals, db.lunchHistories, db.meals, meal);
      db.meals := db.meals + [meal];
      db.nextMealId := db.nextMealId + 1;
      r := Success(meal);
    }

    /** LinkStoreMealAsync: a new link is available; the price is stored as given, sign unchecked. */
    method LinkStoreMeal(storeId: int, mealId: int, price: Option<real>) returns (r: Result<StoreMeal, Error>)
      requires db.Valid()
      modifies db`storeMeals
      ensures db.Valid()
      ensures r.Failure? <==> LinkRejection(db.stores, db.meals, old(db.storeMeals), storeId, mealId).Some?
      ensures r.Failure? ==> r.error == LinkRejection(db.stores, db.meals, old(db.storeMeals), storeId, mealId).value
                             && db.storeMeals == old(db.storeMeals)
      ensures r.Success? ==> && r.value == StoreMeal(storeId, mealId, price, true)
                             && db.storeMeals == old(db.storeMeals) + [r.value]
    {
      var rejection := LinkRejection(db.stores, db.meals, db.storeMeals, storeId, mealId);
      if rejection.Some? {
        return Failure(rejection.value);
      }
      var link := StoreMeal(storeId, mealId, price, true);
      LinkKeepsPairsUnique(db.stores, db.meals, db.storeMeals, link);
      db.storeMeals := db.storeMeals + [link];
      r := Success(link);
    }

    /** GetAllStoresAsync: the active stores, by name. */
    method GetAllStores() returns (r: seq<Store>)
      ensures SortedBy(r, StoreKey)
      ensures forall s :: multiset(r)[s] == if s.isActive then multiset(db.stores)[s] else 0
    {
      r := ActiveStoresByName(db.stores);
    }

    /** GetAllMealsAsync: every meal with its food type, by food type name, then meal name. */
    method GetAllMeals() returns (r: seq<MealEntry>)
      ensures SortedBy(r, MealKey)
      ensures multiset(r) == multiset(WithFoodType(db.meals, db.foodTypes))
      ensures forall e :: e in r <==> e.meal in db.meals && FindFoodType(db.foodTypes, e.meal.foodTypeId) == Some(e.foodType)
    {
      r := MealsByFoodTypeThenName(db.meals, db.foodTypes);
    }

    /** GetAllFoodTypesAsync: every food type, by name. */
    method GetAllFoodTypes() returns (r: seq<FoodType>)
      ensures SortedBy(r, FoodTypeKey)
      ensures multiset(r) == multiset(db.foodTypes)
    {
      r := FoodTypesByName(db.foodTypes);
    }
  }

  // ---------------------------------------------------------------------------------
  // Table invariants across an insert

  lemma StoresOkAfterAppend(stores: seq<Store>, nextId: int, s: Store)
    requires StoresOk(stores, nextId) && s.id == nextId && !HasStoreNamed(stores, s.name)
    ensures StoresOk(stores + [s], nextId + 1)
  {
    var r := stores + [s];
    forall i, j | 0 <= i < j < |r| ensures r[i].id != r[j].id && r[i].name != r[j].name {
      if j == |stores| {
        assert r[i] in stores;
      }
    }
  }

  lemma MealsOkAfterAppend(meals: seq<Meal>, foodTypes: seq<FoodType>, nextId: int, m: Meal)
    requires MealsOk(meals, foodTypes, nextId) && m.id == nextId
    requires HasFoodType(foodTypes, m.foodTypeId) && !HasMealKey(meals, m.name, m.foodTypeId)
    ensures MealsOk(meals + [m], foodTypes, nextId + 1)
  {
    var r := meals + [m];
    forall i, j | 0 <= i < j < |r|
      ensures r[i].id != r[j].id && (r[i].name != r[j].name || r[i].foodTypeId != r[j].foodTypeId)
    {
      if j == |meals| {
        assert r[i] in meals;
      }
    }
  }

  /** Rows that point at a store still do after another store is added. */
  lemma RowAddedKeepsStores(storeMeals: seq<StoreMeal>, history: seq<LunchHistory>, stores: seq<Store>, s: Store)
    ensures forall sm :: sm in storeMeals && HasStore(stores, sm.storeId) ==> HasStore(stores + [s], sm.storeId)
    ensures forall h :: h in history && HasStore(stores, h.storeId) ==> HasStore(stores + [s], h.storeId)
  {
    assert forall x :: x in stores ==> x in stores + [s];
  }

  /** Rows that point at a meal still do after another meal is added. */
  lemma RowAddedKeepsMeals(storeMeals: seq<StoreMeal>, history: seq<LunchHistory>, meals: seq<Meal>, m: Meal)
    ensures forall sm :: sm in storeMeals && HasMeal(meals, sm.mealId) ==> HasMeal(meals + [m], sm.mealId)
    ensures forall h :: h in history && HasMeal(meals, h.mealId) ==> HasMeal(meals + [m], h.mealId)
  {
    assert forall x :: x in meals ==> x in meals + [m];
  }
}
