/** The database the services share (Data/ApplicationDbContext.cs): one table per
    entity, the SQLite AUTOINCREMENT counters, and the keys, uniqueness rules and
    foreign keys the schema and the services keep. */
module Data {
  import opened Wrappers
  import opened Models

  /** The food types seeded when the database is created: ids 1 to 3. */
  function SeedFoodTypes(): seq<FoodType>
  {
    [ FoodType(1, "コメ", "ご飯系の食べ物"),
      FoodType(2, "麺", "麺類の食べ物"),
      FoodType(3, "パン", "パン系の食べ物") ]
  }

  // Row-existence tests, the `AnyAsync(...)` queries of the services.

  predicate HasStore(stores: seq<Store>, id: int) { exists s :: s in stores && s.id == id }

  predicate HasStoreNamed(stores: seq<Store>, name: string) { exists s :: s in stores && s.name == name }

  predicate HasMeal(meals: seq<Meal>, id: int) { exists m :: m in meals && m.id == id }

  predicate HasMealKey(meals: seq<Meal>, name: string, foodTypeId: int)
  {
    exists m :: m in meals && m.name == name && m.foodTypeId == foodTypeId
  }

  predicate HasFoodType(foodTypes: seq<FoodType>, id: int) { exists f :: f in foodTypes && f.id == id }

  predicate HasLink(storeMeals: seq<StoreMeal>, storeId: int, mealId: int)
  {
    exists sm :: sm in storeMeals && sm.storeId == storeId && sm.mealId == mealId
  }

  /** The store row with the given key, as a navigation property is loaded. */
  function FindStore(stores: seq<Store>, id: int): (r: Option<Store>)
    ensures r.Some? ==> r.value in stores && r.value.id == id
    ensures r.None? <==> !HasStore(stores, id)
  {
    if stores == [] then None
    else if stores[0].id == id then Some(stores[0])
    else
      var r := FindStore(stores[1..], id);
      assert stores == [stores[0]] + stores[1..];
      r
  }

  /** The food type row with the given key. */
  function FindFoodType(foodTypes: seq<FoodType>, id: int): (r: Option<FoodType>)
    ensures r.Some? ==> r.value in foodTypes && r.value.id == id
    ensures r.None? <==> !HasFoodType(foodTypes, id)
  {
    if foodTypes == [] then None
    else if foodTypes[0].id == id then Some(foodTypes[0])
    else
      var r := FindFoodType(foodTypes[1..], id);
      assert foodTypes == [foodTypes[0]] + foodTypes[1..];
      r
  }

  /** The meal row with the given key. */
  function FindMeal(meals: seq<Meal>, id: int): (r: Option<Meal>)
    ensures r.Some? ==> r.value in meals && r.value.id == id
    ensures r.None? <==> !HasMeal(meals, id)
  {
    if meals == [] then None
    else if meals[0].id == id then Some(meals[0])
    else
      var r := FindMeal(meals[1..], id);
      assert meals == [meals[0]] + meals[1..];
      r
  }

  // Table invariants. Keys are AUTOINCREMENT integers below the table's counter.

  ghost predicate FoodTypesOk(foodTypes: seq<FoodType>)
  {
    forall i, j :: 0 <= i < j < |foodTypes| ==> foodTypes[i].id != foodTypes[j].id
  }

  /** Store ids are keys; store names are unique (AddStoreAsync refuses a taken name). */
  ghost predicate StoresOk(stores: seq<Store>, nextId: int)
  {
    && 0 < nextId
    && (forall s :: s in stores ==> 0 < s.id < nextId)
    && (forall i, j :: 0 <= i < j < |stores| ==> stores[i].id != stores[j].id)
    && (forall i, j :: 0 <= i < j < |stores| ==> stores[i].name != stores[j].name)
  }

  /** Meal ids are keys, (name, food type) is unique, and the food type exists. */
  ghost predicate MealsOk(meals: seq<Meal>, foodTypes: seq<FoodType>, nextId: int)
  {
    && 0 < nextId
    && (forall m :: m in meals ==> 0 < m.id < nextId && HasFoodType(foodTypes, m.foodTypeId))
    && (forall i, j :: 0 <= i < j < |meals| ==> meals[i].id != meals[j].id)
    && (forall i, j :: 0 <= i < j < |meals| ==>
          meals[i].name != meals[j].name || meals[i].foodTypeId != meals[j].foodTypeId)
  }

  /** (StoreId, MealId) is the composite key of StoreMeal; both ends exist. */
  ghost predicate LinksOk(storeMeals: seq<StoreMeal>, stores: seq<Store>, meals: seq<Meal>)
  {
    && (forall sm :: sm in storeMeals ==> HasStore(stores, sm.storeId) && HasMeal(meals, sm.mealId))
    && (forall i, j :: 0 <= i < j < |storeMeals| ==>
          storeMeals[i].storeId != storeMeals[j].storeId || storeMeals[i].mealId != storeMeals[j].mealId)
  }

  /** History ids are keys; every row points at an existing store and meal. */
  ghost predicate HistoryOk(history: seq<LunchHistory>, stores: seq<Store>, meals: seq<Meal>, nextId: int)
  {
    && 0 < nextId
    && (forall h :: h in history ==> 0 < h.id < nextId)
    && (forall i, j :: 0 <= i < j < |history| ==> history[i].id != history[j].id)
    && (forall h :: h in history ==> HasStore(stores, h.storeId) && HasMeal(meals, h.mealId))
  }

  /** The application database: the DbSets as tables, plus the key counters SQLite keeps. */
  class AppDbContext {
    var foodTypes: seq<FoodType>
    var stores: seq<Store>
    var meals: seq<Meal>
    var storeMeals: seq<StoreMeal>
    var lunchHistories: seq<LunchHistory>
    var nextStoreId: int
    var nextMealId: int
    var nextHistoryId: int

    ghost predicate Valid()
      reads this
    {
      && FoodTypesOk(foodTypes)
      && StoresOk(stores, nextStoreId)
      && MealsOk(meals, foodTypes, nextMealId)
      && LinksOk(storeMeals, stores, meals)
      && HistoryOk(lunchHistories, stores, meals, nextHistoryId)
    }

    /** A freshly migrated database: the seeded food types and nothing else. */
    constructor ()
      ensures Valid()
      ensures foodTypes == SeedFoodTypes()
      ensures stores == [] && meals == [] && storeMeals == [] && lunchHistories == []
    {
      foodTypes := SeedFoodTypes();
      stores, meals, storeMeals, lunchHistories := [], [], [], [];
      nextStoreId, nextMealId, nextHistoryId := 1, 1, 1;
    }
  }
}
