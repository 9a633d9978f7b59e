/** The lunch selection engine (Services/LunchDecisionService.cs): which store/meal
    offerings are candidates, the recency filter with its soft fallback, the draw, and
    the suggestion log the unfiltered decision appends to. */
module LunchDecisions {
  import opened Wrappers
  import opened Models
  import opened Data

  // ---------------------------------------------------------------------------------
  // Candidate offerings

  /** A StoreMeal row loaded with its Store and Meal navigation properties. */
  datatype Offering = Offering(link: StoreMeal, store: Store, meal: Meal)

  /** Include(sm => sm.Store).Include(sm => sm.Meal): both navigations are required, so a
      row loads only when its store and its meal exist. The queries also join the meal's
      FoodType (ThenInclude); in a valid database every meal's food type exists, so that
      join drops nothing (LoadedMealHasFoodType). */
  function Load(sm: StoreMeal, stores: seq<Store>, meals: seq<Meal>): (r: Option<Offering>)
    ensures r.Some? <==> HasStore(stores, sm.storeId) && HasMeal(meals, sm.mealId)
    ensures r.Some? ==> r.value.link == sm
                        && r.value.store in stores && r.value.store.id == sm.storeId
                        && r.value.meal in meals && r.value.meal.id == sm.mealId
  {
    match (FindStore(stores, sm.storeId), FindMeal(meals, sm.mealId))
    case (Some(s), Some(m)) => Some(Offering(sm, s, m))
    case _ => None
  }

  /** The third join of the decision queries, Meal.FoodType, loads for every loaded row of a
      database whose meals all have their food type. */
  lemma LoadedMealHasFoodType(sm: StoreMeal, stores: seq<Store>, meals: seq<Meal>,
                              foodTypes: seq<FoodType>, nextMealId: int)
    requires MealsOk(meals, foodTypes, nextMealId)
    requires Load(sm, stores, meals).Some?
    ensures HasFoodType(foodTypes, Load(sm, stores, meals).value.meal.foodTypeId)
  {
  }

  /** The Where clause of each decision query. */
  datatype Criterion =
    | AnyOffering              // DecideRandomLunchAsync
    | OfFoodType(foodTypeId: int)  // DecideRandomLunchByFoodTypeAsync
    | AtStore(storeId: int)    // DecideRandomLunchByStoreAsync

  predicate Admits(c: Criterion, o: Offering)
  {
    && o.link.isAvailable
    && match c
       case AnyOffering => true
       case OfFoodType(f) => o.meal.foodTypeId == f
       case AtStore(s) => o.link.storeId == s
  }

  /** The offerings a decision query loads, in table order. */
  function Options(c: Criterion, storeMeals: seq<StoreMeal>, stores: seq<Store>, meals: seq<Meal>): (r: seq<Offering>)
    ensures |r| <= |storeMeals|
    ensures forall o :: o in r ==> o.link in storeMeals && Load(o.link, stores, meals) == Some(o) && Admits(c, o)
    ensures forall sm :: (sm in storeMeals && Load(sm, stores, meals).Some? && Admits(c, Load(sm, stores, meals).value))
                           ==> Load(sm, stores, meals).value in r
  {
    if storeMeals == [] then []
    else
      assert storeMeals == [storeMeals[0]] + storeMeals[1..];
      var rest := Options(c, storeMeals[1..], stores, meals);
      match Load(storeMeals[0], stores, meals)
      case Some(o) => if Admits(c, o) then [o] + rest else rest
      case None => rest
  }

  /** When every link points at an existing store and meal, an available link is always
      among the options of the unfiltered query. */
  lemma AvailableLinkIsOption(storeMeals: seq<StoreMeal>, stores: seq<Store>, meals: seq<Meal>, sm: StoreMeal)
    requires LinksOk(storeMeals, stores, meals)
    requires sm in storeMeals && sm.isAvailable
    ensures exists o :: o in Options(AnyOffering, storeMeals, stores, meals) && o.link == sm
  {
    var o := Load(sm, stores, meals).value;
    assert o in Options(AnyOffering, storeMeals, stores, meals);
  }

  // ---------------------------------------------------------------------------------
  // Recent suggestions

  /** The multiplier of the combination id. */
  const KeyStride: int := 10000

  /** The combination id StoreId * 10000 + MealId (unbounded here, see README). */
  function ComboKey(storeId: int, mealId: int): (k: int)
    ensures 0 <= mealId < KeyStride ==> k / KeyStride == storeId && k % KeyStride == mealId
  {
    storeId * KeyStride + mealId
  }

  function OfferingKey(o: Offering): int
  {
    ComboKey(o.link.storeId, o.link.mealId)
  }

  /** DateTime.Today.AddDays(-1): midnight of the previous day. */
  function WindowStart(today: Instant): (start: Instant)
    ensures start < today && today - start <= TicksPerDay
    ensures start % TicksPerDay == today % TicksPerDay
  {
    today - TicksPerDay
  }

  /** The Where clause on LunchHistories: the user's own rows from the window on. */
  predicate IsRecentFor(h: LunchHistory, userId: string, since: Instant)
  {
    h.userId == userId && h.suggestedAt >= since
  }

  /** The combination ids of the user's recent suggestions, in table order. */
  function RecentKeys(history: seq<LunchHistory>, userId: string, since: Instant): (keys: seq<int>)
    ensures |keys| <= |history|
    decreases |history|
  {
    if history == [] then []
    else
      var h := history[|history| - 1];
      RecentKeys(history[..|history| - 1], userId, since)
        + (if IsRecentFor(h, userId, since) then [ComboKey(h.storeId, h.mealId)] else [])
  }

  /** A key is recent exactly when one of the user's rows inside the window has it. */
  lemma {:induction false} RecentKeysMembers(history: seq<LunchHistory>, userId: string, since: Instant)
    ensures forall k :: k in RecentKeys(history, userId, since) <==>
              exists h :: h in history && IsRecentFor(h, userId, since) && ComboKey(h.storeId, h.mealId) == k
    decreases |history|
  {
    if history != [] {
      var init := history[..|history| - 1];
      assert history == init + [history[|history| - 1]];
      RecentKeysMembers(init, userId, since);
    }
  }

  /** Rows of other users logged after a history do not change a user's recent set. */
  lemma {:induction false} OtherUsersIgnored(history: seq<LunchHistory>, others: seq<LunchHistory>,
                                             userId: string, since: Instant)
    requires forall h :: h in others ==> h.userId != userId
    ensures RecentKeys(history + others, userId, since) == RecentKeys(history, userId, since)
    decreases |others|
  {
    if others == [] {
      assert history + others == history;
    } else {
      var init := others[..|others| - 1];
      assert (history + others)[..|history + others| - 1] == history + init;
      assert forall h :: h in init ==> h in others;
      OtherUsersIgnored(history, init, userId, since);
    }
  }

  /** Rows of other users, wherever they sit in the log, never change a user's recent set. */
  lemma {:induction false} OtherUsersIgnoredAnywhere(before: seq<LunchHistory>, others: seq<LunchHistory>,
                                                     after: seq<LunchHistory>, userId: string, since: Instant)
    requires forall h :: h in others ==> h.userId != userId
    ensures RecentKeys(before + others + after, userId, since) == RecentKeys(before + after, userId, since)
    decreases |after|
  {
    if after == [] {
      assert before + others + after == before + others;
      assert before + after == before;
      OtherUsersIgnored(before, others, userId, since);
    } else {
      var init, last := after[..|after| - 1], after[|after| - 1];
      var long, short := before + others + after, before + after;
      assert long[..|long| - 1] == before + others + init && long[|long| - 1] == last;
      assert short[..|short| - 1] == before + init && short[|short| - 1] == last;
      OtherUsersIgnoredAnywhere(before, others, init, userId, since);
    }
  }

  /** The window holds the previous calendar day and today so far: a suggestion up to 24
      hours old is always recent, and one up to 48 hours old can be. */
  lemma WindowCoversPreviousDay(history: seq<LunchHistory>, h: LunchHistory, today: Instant, now: Instant)
    requires today <= now && h in history && h.suggestedAt >= now - TicksPerDay
    ensures ComboKey(h.storeId, h.mealId) in RecentKeys(history, h.userId, WindowStart(today))
  {
    RecentKeysMembers(history, h.userId, WindowStart(today));
  }

  /** The window is midnight-aligned, not a trailing day: at 23:00 a suggestion made 46 hours
      earlier, at 01:00 the day before, still counts as recent. */
  lemma WindowIsNotTrailingDay()
    ensures var today := 10 * TicksPerDay;
            var now := today + 23 * (TicksPerDay / 24);
            var h := LunchHistory(1, 1, 1, "u", "u", now - 46 * (TicksPerDay / 24));
            now - h.suggestedAt > TicksPerDay && ComboKey(1, 1) in RecentKeys([h], "u", WindowStart(today))
  {
    var today := 10 * TicksPerDay;
    var now := today + 23 * (TicksPerDay / 24);
    var h := LunchHistory(1, 1, 1, "u", "u", now - 46 * (TicksPerDay / 24));
    assert [h][..0] == [];
  }

  // ---------------------------------------------------------------------------------
  // Filtering with the soft fallback

  /** availableOptions.Where(sm => !recentSuggestionIds.Contains(...)), in order. */
  function ExcludeRecent(options: seq<Offering>, keys: seq<int>): (r: seq<Offering>)
    ensures |r| <= |options|
    ensures forall o :: o in r <==> o in options && OfferingKey(o) !in keys
  {
    if options == [] then []
    else
      assert options == [options[0]] + options[1..];
      var rest := ExcludeRecent(options[1..], keys);
      if OfferingKey(options[0]) in keys then rest else [options[0]] + rest
  }

  /** finalOptions: the filtered options, or all available ones when the filter leaves none. */
  function FinalOptions(available: seq<Offering>, keys: seq<int>): (r: seq<Offering>)
    ensures forall o :: o in r ==> o in available
    ensures forall o :: o in available && OfferingKey(o) !in keys ==> o in r
    ensures |r| > 0 <==> |available| > 0
    ensures (exists o :: o in available && OfferingKey(o) !in keys) ==> forall o :: o in r ==> OfferingKey(o) !in keys
    ensures (forall o :: o in available ==> OfferingKey(o) in keys) ==> r == available
  {
    var filtered := ExcludeRecent(available, keys);
    if |filtered| > 0 then
      assert filtered[0] in filtered;
      filtered
    else
      assert forall o :: o in available ==> OfferingKey(o) in keys;
      available
  }

  /** With meal ids below the stride the combination id is injective. */
  lemma ComboKeyInjective(s1: int, m1: int, s2: int, m2: int)
    requires 0 <= m1 < KeyStride && 0 <= m2 < KeyStride
    requires ComboKey(s1, m1) == ComboKey(s2, m2)
    ensures s1 == s2 && m1 == m2
  {
  }

  /** A (store, meal) pair the user suggested inside the window. */
  ghost predicate SuggestedRecently(history: seq<LunchHistory>, userId: string, since: Instant, storeId: int, mealId: int)
  {
    exists h :: h in history && IsRecentFor(h, userId, since) && h.storeId == storeId && h.mealId == mealId
  }

  /** When every meal id is below the stride, excluding by combination id is exactly
      excluding the pairs the user suggested recently. */
  lemma ExcludeRecentIsPairDifference(options: seq<Offering>, history: seq<LunchHistory>,
                                      userId: string, since: Instant, o: Offering)
    requires forall x :: x in options ==> 0 <= x.link.mealId < KeyStride
    requires forall h :: h in history ==> 0 <= h.mealId < KeyStride
    ensures o in ExcludeRecent(options, RecentKeys(history, userId, since)) <==>
              o in options && !SuggestedRecently(history, userId, since, o.link.storeId, o.link.mealId)
  {
    RecentKeysMembers(history, userId, since);
    if o in options && OfferingKey(o) in RecentKeys(history, userId, since) {
      var h :| h in history && IsRecentFor(h, userId, since) && ComboKey(h.storeId, h.mealId) == OfferingKey(o);
      ComboKeyInjective(h.storeId, h.mealId, o.link.storeId, o.link.mealId);
    }
  }

  /** Without that bound ids collide: suggesting store 2 / meal 1 hides store 1 / meal
      10001, which the user was never offered. */
  lemma KeyCollisionHidesUnsuggestedPair()
    ensures var h := LunchHistory(1, 2, 1, "u", "u", 0);
            var o := Offering(StoreMeal(1, 10001, None, true), Store(1, "s", "g", true), Meal(10001, "m", "", 1));
            && !SuggestedRecently([h], "u", 0, 1, 10001)
            && ExcludeRecent([o], RecentKeys([h], "u", 0)) == []
  {
    var h := LunchHistory(1, 2, 1, "u", "u", 0);
    assert [h][..0] == [];
  }

  /** The candidates of DecideRandomLunchAsync for a user on a day. */
  function Candidates(storeMeals: seq<StoreMeal>, stores: seq<Store>, meals: seq<Meal>,
                      history: seq<LunchHistory>, userId: string, today: Instant): (r: seq<Offering>)
    ensures forall o :: o in r ==> o in Options(AnyOffering, storeMeals, stores, meals)
    ensures forall o :: (o in Options(AnyOffering, storeMeals, stores, meals)
                         && OfferingKey(o) !in RecentKeys(history, userId, WindowStart(today))) ==> o in r
    ensures |r| > 0 <==> |Options(AnyOffering, storeMeals, stores, meals)| > 0
  {
    FinalOptions(Options(AnyOffering, storeMeals, stores, meals), RecentKeys(history, userId, WindowStart(today)))
  }

  /** Other users' suggestions, wherever they sit in the log, never shrink (or otherwise
      change) a user's candidates. */
  lemma CandidatesIgnoreOtherUsers(storeMeals: seq<StoreMeal>, stores: seq<Store>, meals: seq<Meal>,
                                   before: seq<LunchHistory>, others: seq<LunchHistory>, after: seq<LunchHistory>,
                                   userId: string, today: Instant)
    requires forall h :: h in others ==> h.userId != userId
    ensures Candidates(storeMeals, stores, meals, before + others + after, userId, today)
         == Candidates(storeMeals, stores, meals, before + after, userId, today)
  {
    OtherUsersIgnoredAnywhere(before, others, after, userId, WindowStart(today));
  }

  /** random.Next(n): the caller's roll picks one of the n indices. */
  function Draw(n: nat, roll: nat): (i: nat)
    requires n > 0
    ensures i < n
    ensures roll < n ==> i == roll
  {
    roll % n
  }

  /** A pair just suggested is excluded on a next call from the same day or the day after,
      as long as some available pair has not been suggested in the window. */
  lemma SuggestionExcludedNextCall(storeMeals: seq<StoreMeal>, stores: seq<Store>, meals: seq<Meal>,
                                   history: seq<LunchHistory>, h: LunchHistory, today: Instant, o: Offering)
    requires h.suggestedAt >= WindowStart(today)
    requires o.link.storeId == h.storeId && o.link.mealId == h.mealId
    requires exists x :: x in Options(AnyOffering, storeMeals, stores, meals)
                           && OfferingKey(x) !in RecentKeys(history + [h], h.userId, WindowStart(today))
    ensures o !in Candidates(storeMeals, stores, meals, history + [h], h.userId, today)
  {
    RecentKeysMembers(history + [h], h.userId, WindowStart(today));
    assert h in history + [h];
  }

  // ---------------------------------------------------------------------------------
  // The service

  /** The row DecideRandomLunchAsync logs takes the next history id and refers to the chosen
      link's store and meal, so the history keeps unique ids and valid references. */
  lemma LoggedSuggestionKeepsHistoryOk(history: seq<LunchHistory>, stores: seq<Store>, meals: seq<Meal>,
                                       nextId: int, entry: LunchHistory)
    requires HistoryOk(history, stores, meals, nextId)
    requires entry.id == nextId && HasStore(stores, entry.storeId) && HasMeal(meals, entry.mealId)
    ensures HistoryOk(history + [entry], stores, meals, nextId + 1)
  {
    var logged := history + [entry];
    forall i, j | 0 <= i < j < |logged| ensures logged[i].id != logged[j].id {
      if j == |history| {
        assert logged[i] in history;
      }
    }
  }

  class LunchDecisionService {
    const db: AppDbContext

    constructor (db: AppDbContext)
      ensures this.db == db
    {
      this.db := db;
    }

    /** DecideRandomLunchAsync: `today` and `now` are the clock readings DateTime.Today and
        DateTime.Now, `roll` the value random.Next draws from. */
    method DecideRandomLunch(userId: string, username: string, today: Instant, now: Instant, roll: nat)
      returns (r: Result<LunchDecision, Error>)
      requires db.Valid()
      modifies db`lunchHistories, db`nextHistoryId
      ensures db.Valid()
      ensures r.Failure? <==> Options(AnyOffering, db.storeMeals, db.stores, db.meals) == []
      ensures r.Failure? ==> && r.error == InvalidOperationException(NoAvailableOptions)
                             && db.lunchHistories == old(db.lunchHistories)
                             && db.nextHistoryId == old(db.nextHistoryId)
      ensures r.Success? ==>
                var candidates := Candidates(db.storeMeals, db.stores, db.meals, old(db.lunchHistories), userId, today);
                var o := candidates[Draw(|candidates|, roll)];
                && r.value == LunchDecision(o.store, o.meal)
                && db.lunchHistories == old(db.lunchHistories)
                     + [LunchHistory(old(db.nextHistoryId), o.link.storeId, o.link.mealId, userId, username, now)]
                && db.nextHistoryId == old(db.nextHistoryId) + 1
    {
      var recent := RecentKeys(db.lunchHistories, userId, WindowStart(today));
      var available := Options(AnyOffering, db.storeMeals, db.stores, db.meals);
      if |available| == 0 {
        return Failure(InvalidOperationException(NoAvailableOptions));
      }
      var finalOptions := FinalOptions(available, recent);
      assert finalOptions == Candidates(db.storeMeals, db.stores, db.meals, db.lunchHistories, userId, today);
      var selected := finalOptions[Draw(|finalOptions|, roll)];
      var entry := LunchHistory(db.nextHistoryId, selected.link.storeId, selected.link.mealId, userId, username, now);
      LoggedSuggestionKeepsHistoryOk(db.lunchHistories, db.stores, db.meals, db.nextHistoryId, entry);
      db.lunchHistories := db.lunchHistories + [entry];
      db.nextHistoryId := db.nextHistoryId + 1;
      r := Success(LunchDecision(selected.store, selected.meal));
    }

    /** DecideRandomLunchByFoodTypeAsync: an available offering of the food type; no log. */
    method DecideRandomLunchByFoodType(foodTypeId: int, roll: nat) returns (r: Result<LunchDecision, Error>)
      requires db.Valid()
      ensures var options := Options(OfFoodType(foodTypeId), db.storeMeals, db.stores, db.meals);
              && (r.Failure? <==> options == [])
              && (r.Failure? ==> r.error == InvalidOperationException(NoOptionsForFoodType))
              && (r.Success? ==> exists o :: o in options && r.value == LunchDecision(o.store, o.meal))
              && (r.Success? ==> var o := options[Draw(|options|, roll)];
                                 r.value == LunchDecision(o.store, o.meal))
      ensures r.Success? ==> r.value.meal.foodTypeId == foodTypeId && r.value.meal in db.meals
                             && r.value.store in db.stores
                             && HasLink(db.storeMeals, r.value.store.id, r.value.meal.id)
    {
      var available := Options(OfFoodType(foodTypeId), db.storeMeals, db.stores, db.meals);
      if |available| == 0 {
        return Failure(InvalidOperationException(NoOptionsForFoodType));
      }
      var selected := available[Draw(|available|, roll)];
      r := Success(LunchDecision(selected.store, selected.meal));
    }

    /** DecideRandomLunchByStoreAsync: an available offering of the store; no log. */
    method DecideRandomLunchByStore(storeId: int, roll: nat) returns (r: Result<LunchDecision, Error>)
      requires db.Valid()
      ensures var options := Options(AtStore(storeId), db.storeMeals, db.stores, db.meals);
              && (r.Failure? <==> options == [])
              && (r.Failure? ==> r.error == InvalidOperationException(NoOptionsForStore))
              && (r.Success? ==> exists o :: o in options && r.value == LunchDecision(o.store, o.meal))
              && (r.Success? ==> var o := options[Draw(|options|, roll)];
                                 r.value == LunchDecision(o.store, o.meal))
      ensures r.Success? ==> r.value.store.id == storeId && r.value.meal in db.meals
                             && r.value.store in db.stores
                             && HasLink(db.storeMeals, storeId, r.value.meal.id)
    {
      var available := Options(AtStore(storeId), db.storeMeals, db.stores, db.meals);
      if |available| == 0 {
        return Failure(InvalidOperationException(NoOptionsForStore));
      }
      var selected := available[Draw(|available|, roll)];
      r := Success(LunchDecision(selected.store, selected.meal));
    }
  }

  /** The decision offered is always an available link of the catalogue; when some available
      pair is not among the user's recent keys the decision is not recent either, and when
      all are recent the decision still succeeds. */
  lemma ChosenIsAvailable(storeMeals: seq<StoreMeal>, stores: seq<Store>, meals: seq<Meal>,
                          history: seq<LunchHistory>, userId: string, today: Instant, roll: nat)
    requires Options(AnyOffering, storeMeals, stores, meals) != []
    ensures var candidates := Candidates(storeMeals, stores, meals, history, userId, today);
            && candidates != []
            && var o := candidates[Draw(|candidates|, roll)];
            && o.link in storeMeals && o.link.isAvailable
            && o.store.id == o.link.storeId && o.meal.id == o.link.mealId
            && ((exists x :: x in Options(AnyOffering, storeMeals, stores, meals)
                               && OfferingKey(x) !in RecentKeys(history, userId, WindowStart(today)))
                ==> OfferingKey(o) !in RecentKeys(history, userId, WindowStart(today)))
  {
    var candidates := Candidates(storeMeals, stores, meals, history, userId, today);
    var o := candidates[Draw(|candidates|, roll)];
    assert o in candidates;
  }
}
