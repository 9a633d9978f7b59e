/** The entity records of the bot (the classes under Models) and the exceptions its services throw. */
module Models {
  import opened Wrappers

  /** A point in time as DateTime ticks (100 ns units). */
  type Instant = int

  const TicksPerDay: int := 864_000_000_000

  datatype FoodType = FoodType(id: int, name: string, description: string)

  datatype Store = Store(id: int, name: string, genre: string, isActive: bool)

  datatype Meal = Meal(id: int, name: string, description: string, foodTypeId: int)

  /** An offering: the store sells the meal, optionally at a (decimal) price. */
  datatype StoreMeal = StoreMeal(storeId: int, mealId: int, price: Option<real>, isAvailable: bool)

  /** One row of the append-only suggestion log. */
  datatype LunchHistory = LunchHistory(
    id: int, storeId: int, mealId: int, userId: string, username: string, suggestedAt: Instant)

  /** What a lunch decision hands back to the caller. */
  datatype LunchDecision = LunchDecision(store: Store, meal: Meal)

  /** Why an InvalidOperationException was thrown. */
  datatype Reason =
    | NoAvailableOptions      // no available store/meal combination at all
    | NoOptionsForFoodType    // none of the requested food type
    | NoOptionsForStore       // none at the requested store
    | DuplicateStore
    | DuplicateMeal
    | DuplicateLink

  /** The exceptions the services throw; ArgumentException carries its parameter name. */
  datatype Error =
    | ArgumentException(paramName: string)
    | InvalidOperationException(reason: Reason)
}
