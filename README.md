# Ohirun lunch bot — a verified Dafny model

Ohirun is a Discord bot that suggests where to buy lunch. Its catalogue holds:

- stores;
- meals, each of a food type: rice (コメ), noodles (麺) or bread (パン);
- store/meal links, each with an availability flag and an optional price.

Each suggestion made to a user through `/ohiru` is written to a lunch history. This project models the logic of the bot's core and proves properties of it:

- **Lunch selection** (`LunchDecisions`, from `Services/LunchDecisionService.cs`). The available store/meal links are loaded with their store and meal. Links already suggested to the same user since midnight of the previous day are excluded. If that leaves nothing, all available links come back. One link is drawn, and exactly one history row is appended. The variants by food type and by store filter, draw and write nothing.
- **Command registration and dispatch** (`SlashCommands`, from `Services/SlashCommandService.cs`).
  - Registration: for each guild, the existing command names are listed once. Every registry command missing from that list is then created, in registry order. An exception inside one guild ends that guild's turn only.
  - Dispatch: the first registry command with the invoked name runs, or the user gets an ephemeral "Unknown command" reply.
- **The command registry** (`Commands`, from `Commands/SlashCommandRegistry.cs`): the fixed list `ohiru`, `add`, `link`, `list`.
- **Catalogue maintenance** (`DataManagement` and `Catalogue`, from `Services/DataManagementService.cs`). There are three guarded inserts, each with its checks in a fixed order:
  - add a store;
  - add a meal;
  - link a store and a meal.

  There are also three sorted listings.

Supporting modules:

- `Models`: the entity records.
- `Data`: the database as a class `AppDbContext`. It has one `seq` field per table and the AUTOINCREMENT counters. Its `Valid()` invariant holds keys, the uniqueness rules and foreign keys.
- `Ordering`: `ORDER BY` under SQLite's BINARY collation, specified as sorted by key plus a permutation.
- `Text`: .NET's `string.IsNullOrWhiteSpace`.
- `Wrappers`: `Option` and `Result`.

Inputs that the code reads from the environment become parameters:

- `DateTime.Today` and `DateTime.Now` become `today` and `now`, in ticks.
- `random.Next(n)` becomes a caller-supplied `roll`, and the index drawn is `roll % n`.
- The remote calls that can throw during registration are named by a per-guild fault index. Index 0 means listing the guild's commands throws; index k means the k-th creation throws.
- A null string argument is `None`.

Three behaviours of the code are easy to misread:

- **Recency window.** The window starts at midnight of the previous day (`DateTime.Today.AddDays(-1)`). It is not a trailing 24 hours. `WindowIsNotTrailingDay` shows a suggestion 46 hours old that still counts as recent.
- **Inactive stores.** Links at inactive stores are not excluded from lunch selection. Only the store listing filters on `IsActive`.
- **Recent pairs.** Recent pairs are compared by the combination id `StoreId * 10000 + MealId`, not as pairs. The two are guaranteed to agree while meal ids stay below 10000 (`ExcludeRecentIsPairDifference`). Past that bound, a pair never suggested can be hidden (`KeyCollisionHidesUnsuggestedPair`).

## Model

| member | source | states |
|---|---|---|
| Commands.SlashCommand.Name | Commands/OhiruCommand.cs:16 | each command's name is between 1 and 32 characters long, as Discord requires of slash command names (the four literals are at Commands/OhiruCommand.cs:16, AddCommand.cs:17, LinkCommand.cs:17 and ListCommand.cs:21) |
| Commands.NameIsLowerCase | Commands/AddCommand.cs:17 | every command name consists of lower-case Latin letters only |
| Commands.NameIdentifiesCommand | Commands/LinkCommand.cs:17 | two commands with the same name are the same command |
| Commands.GetCommands | Commands/SlashCommandRegistry.cs:16-22 | the registry has four entries, holds every command, and no two entries share a name |
| Commands.RegistryContents | Commands/SlashCommandRegistry.cs:16-22 | the registry yields exactly the names ohiru, add, link, list in that order, and they are pairwise distinct |
| SlashCommands.FindCommand | Services/SlashCommandService.cs:71 | the result is the index of the first registry command with the name; there is none exactly when no command has the name |
| SlashCommands.FindCommandOfDistinct | Services/SlashCommandService.cs:71 | in a registry with distinct names, looking up the i-th command's name yields i |
| SlashCommands.RegistryResolvesToItself | Commands/SlashCommandRegistry.cs:18-21 | every name the bot's registry yields resolves under dispatch to that same command |
| SlashCommands.SlashCommandService.HandleSlashCommand | Services/SlashCommandService.cs:69-81 | the "Unknown command" ephemeral reply is given exactly when no registry command has the invoked name; otherwise the handler of the first command so named runs; the guilds' commands are not touched (nothing is modified) |
| SlashCommands.MissingNames | Services/SlashCommandService.cs:40-48 | a turn never has more commands to create than the registry has entries |
| SlashCommands.RegisterGuild | Services/SlashCommandService.cs:38-58 | a guild's turn never loses a name: the names it had stay, in order, at the head of its list, and at most one name per registry command is added |
| SlashCommands.RegisterAll | Services/SlashCommandService.cs:32-59 | after visiting the guild list, the map has an entry for exactly the guilds it had plus the visited ones |
| SlashCommands.RegisterAllKeepsNames | Services/SlashCommandService.cs:32-58 | whatever throws, every guild keeps the names it had, in order, at the head of its list |
| SlashCommands.MissingNamesMembers | Services/SlashCommandService.cs:40-48 | the names a guild's turn creates are exactly the registry names absent from the guild's snapshot |
| SlashCommands.MissingNamesPrefix | Services/SlashCommandService.cs:40-53 | the names created after the first j registry commands are a prefix of the names a full turn creates |
| SlashCommands.MissingNamesStep | Services/SlashCommandService.cs:42-51 | one more registry command adds its name to those created exactly when the snapshot lacks it |
| SlashCommands.Created | Services/SlashCommandService.cs:51-57 | the creations that take effect are a prefix of the missing names |
| SlashCommands.RegisterGuildAtFault | Services/SlashCommandService.cs:51-57 | when the creation of a missing command throws, the guild keeps exactly the names created before it |
| SlashCommands.RegisterGuildWithoutFault | Services/SlashCommandService.cs:38-53 | a turn with no exception appends every missing name |
| SlashCommands.RegisterGuildCompletes | Services/SlashCommandService.cs:38-53 | after a turn with no exception, every registry command name is registered in the guild |
| SlashCommands.NothingMissing | Services/SlashCommandService.cs:42-48 | when the snapshot holds every registry name, nothing is created |
| SlashCommands.RegisterGuildIdempotent | Services/SlashCommandService.cs:42-48 | after a complete turn, another turn leaves the guild unchanged, whichever of its calls throws |
| SlashCommands.MissingNamesDistinct | Services/SlashCommandService.cs:38-42 | with distinct registry names, no name is created twice in one turn |
| SlashCommands.RegisterGuildNoDuplicates | Services/SlashCommandService.cs:38-42 | a guild without duplicate names keeps none, given distinct registry names |
| SlashCommands.SnapshotTakenOnce | Services/SlashCommandService.cs:38-42 | because the snapshot is taken once, a registry repeating a name would create it twice |
| SlashCommands.Position | Services/SlashCommandService.cs:71 | a name's position is below the registry length exactly when some command has that name |
| SlashCommands.PositionInPrefix | Services/SlashCommandService.cs:40 | a name found among the first j commands has the same position in the whole registry |
| SlashCommands.MissingNamesInRegistryOrder | Services/SlashCommandService.cs:40-51 | missing commands are created in registry order |
| SlashCommands.RegisterAllPerGuild | Services/SlashCommandService.cs:32-58 | after the loop, each visited guild holds its own turn's outcome, which depends only on its own commands and its own fault; unvisited guilds are unchanged; an exception in one guild leaves the names it had already created |
| SlashCommands.RegisterAllIdempotent | Services/SlashCommandService.cs:32-58 | after a run in which nothing threw, a second run changes no guild, even when its calls throw |
| SlashCommands.SlashCommandService.RegisterCommands | Services/SlashCommandService.cs:32-59 | the loop over guilds leaves the command map equal to the per-guild fold of turns, and every guild keeps an entry |
| SlashCommands.SlashCommandService.RegisterGuildCommands | Services/SlashCommandService.cs:34-58 | one guild's try block ends with that guild's turn outcome, whichever call throws, and leaves every other guild unchanged |
| SlashCommands.SlashCommandService.CreateMissing | Services/SlashCommandService.cs:40-53 | the creation loop, creating names one by one in registry order, leaves the guild with its snapshot followed by the names missing from the registry commands it has passed; it stops exactly at the creation that throws, or passes the whole registry when none does |
| SlashCommands.GatewayClient.CreateCommand | Services/SlashCommandService.cs:51 | a successful creation appends the name to that guild's commands and changes nothing else |
| LunchDecisions.Load | Services/LunchDecisionService.cs:37-38 | a link loads exactly when its store and meal exist, and then carries those rows |
| LunchDecisions.LoadedMealHasFoodType | Services/LunchDecisionService.cs:39 | in a database with valid meals, every loaded option's meal has its food type on record, so the ThenInclude join always finds it |
| LunchDecisions.Options | Services/LunchDecisionService.cs:35-40 | the loaded options are exactly the loadable links that are available and meet the query's filter |
| LunchDecisions.AvailableLinkIsOption | Services/LunchDecisionService.cs:35-40 | with valid foreign keys, every available link is an option |
| LunchDecisions.WindowStart | Services/LunchDecisionService.cs:26 | the window starts at most one day before today, at the same time of day: midnight of the previous day |
| LunchDecisions.ComboKey | Services/LunchDecisionService.cs:32 | for meal ids in [0, 10000), the store and meal ids can be read back from the combination id by division and remainder |
| LunchDecisions.RecentKeys | Services/LunchDecisionService.cs:29-33 | the user's recent ids are never more than the history rows |
| LunchDecisions.RecentKeysMembers | Services/LunchDecisionService.cs:29-33 | a combination id is recent exactly when one of the user's own rows at or after the window start has it |
| LunchDecisions.OtherUsersIgnored | Services/LunchDecisionService.cs:30 | other users' history rows logged after a history never change a user's recent ids |
| LunchDecisions.OtherUsersIgnoredAnywhere | Services/LunchDecisionService.cs:30 | other users' history rows, wherever they sit in the log, never change a user's recent ids |
| LunchDecisions.Candidates | Services/LunchDecisionService.cs:35-53 | every candidate is an available option, every available option whose combination id is not recent is a candidate, and there are candidates exactly when there are available options |
| LunchDecisions.CandidatesIgnoreOtherUsers | Services/LunchDecisionService.cs:26-53 | other users' history rows, wherever they sit in the log, never change a user's candidates |
| LunchDecisions.WindowCoversPreviousDay | Services/LunchDecisionService.cs:26-30 | a suggestion at most 24 hours before now is always recent |
| LunchDecisions.WindowIsNotTrailingDay | Services/LunchDecisionService.cs:26 | a suggestion made 46 hours before now can still be recent: the window starts at midnight of the previous day |
| LunchDecisions.ExcludeRecent | Services/LunchDecisionService.cs:48-50 | the filtered options are exactly the options whose combination id is not recent |
| LunchDecisions.FinalOptions | Services/LunchDecisionService.cs:53 | the candidates are available options and include every available option that is not recent; they are non-empty exactly when the available options are; when some available option is not recent, no candidate is recent; when all are recent, the candidates are all available options |
| LunchDecisions.ComboKeyInjective | Services/LunchDecisionService.cs:32 | with meal ids in [0, 10000), equal combination ids mean equal (store, meal) pairs |
| LunchDecisions.ExcludeRecentIsPairDifference | Services/LunchDecisionService.cs:48-50 | under that bound, filtering by combination id removes exactly the pairs the user suggested in the window |
| LunchDecisions.KeyCollisionHidesUnsuggestedPair | Services/LunchDecisionService.cs:32 | without the bound, suggesting (2, 1) hides (1, 10001), which was never suggested |
| LunchDecisions.Draw | Services/LunchDecisionService.cs:55 | the index drawn is within the candidates, and any index can be drawn |
| LunchDecisions.SuggestionExcludedNextCall | Services/LunchDecisionService.cs:58-68 | a logged suggestion is not a candidate for the same user while it is in the window, unless every available pair is recent |
| LunchDecisions.ChosenIsAvailable | Services/LunchDecisionService.cs:35-55 | the chosen option is an available link, with the store and meal of that link; if some available option is not recent, the chosen one is not recent |
| LunchDecisions.LoggedSuggestionKeepsHistoryOk | Services/LunchDecisionService.cs:58-68 | the logged row, under the next history id and with an existing store and meal, keeps history ids unique and below the counter and every history reference valid |
| LunchDecisions.LunchDecisionService.DecideRandomLunch | Services/LunchDecisionService.cs:24-81 | it fails with InvalidOperationException exactly when no option is available, and the history is unchanged then; otherwise exactly one history row is appended, with the drawn candidate's store and meal, the caller's user id and name, and `now`; the store and meal of that candidate are returned; the database stays valid |
| LunchDecisions.LunchDecisionService.DecideRandomLunchByFoodType | Services/LunchDecisionService.cs:83-109 | in a valid database, it fails exactly when no available option has the food type; otherwise it returns the store and meal of the option the roll draws from the loaded options, the meal is of that food type, and nothing is written |
| LunchDecisions.LunchDecisionService.DecideRandomLunchByStore | Services/LunchDecisionService.cs:111-137 | in a valid database, it fails exactly when the store has no available option; otherwise it returns the store and meal of the option the roll draws from that store's loaded options, an available meal of that store, and nothing is written |
| Catalogue.ActiveStores | Services/DataManagementService.cs:124 | each store occurs in the result as often as in the table if it is active, and not at all otherwise |
| Catalogue.ActiveStoresByName | Services/LunchDecisionService.cs:144-147 | the active stores, each as often as in the table, sorted by name |
| Catalogue.ActiveStoresListed | Services/DataManagementService.cs:122-125 | a store is listed exactly when it is in the table and active |
| Catalogue.FoodTypesByName | Services/LunchDecisionService.cs:139-142 | every food type, sorted by name (a permutation of the table) |
| Catalogue.WithFoodType | Services/DataManagementService.cs:130 | the meals joined with their food type: an entry is present exactly when its meal is in the table and the food type is that meal's, and each entry occurs as often as its meal does in the table |
| Catalogue.MealsByFoodTypeThenName | Services/DataManagementService.cs:127-134 | the joined meals, each as often as in the join, sorted by food type name and then by meal name |
| Catalogue.AllMealsListed | Services/DataManagementService.cs:127-134 | when every meal's food type exists, every meal is listed |
| Catalogue.EachMealListedOnce | Services/DataManagementService.cs:127-134 | with distinct meal ids and every food type on record, each meal is listed exactly once, with its own food type |
| Catalogue.DistinctRowsOnce | Services/DataManagementService.cs:127-134 | a row of a table whose ids are distinct occurs in it exactly once |
| Ordering.SortBy | Services/DataManagementService.cs:131-132 | the rows come out sorted by (primary, secondary) key, as a permutation of the input |
| Ordering.KeyLeTransitive | Services/DataManagementService.cs:131-132 | OrderBy/ThenBy key order is transitive |
| DataManagement.StoreRejection | Services/DataManagementService.cs:24-38 | a blank or null name is rejected first; then a blank genre; then a name any store already has, active or not; otherwise nothing is rejected |
| DataManagement.MealRejection | Services/DataManagementService.cs:56-71 | a blank name is rejected first; then an unknown food type; then an existing (name, food type); otherwise nothing is rejected |
| DataManagement.LinkRejection | Services/DataManagementService.cs:89-105 | an unknown store (active or not) is rejected first; then an unknown meal; then an existing (store, meal) pair; otherwise nothing is rejected |
| DataManagement.StoreNameTakenAfterAdd | Services/DataManagementService.cs:34-38 | once a store is added, adding its name again is refused |
| DataManagement.SameNameOtherFoodTypeAccepted | Services/DataManagementService.cs:67-71 | a meal name taken under one food type is accepted under another and refused under its own |
| DataManagement.PairTakenAfterLink | Services/DataManagementService.cs:101-105 | once a pair is linked, linking it again is refused |
| DataManagement.LinkKeepsPairsUnique | Services/DataManagementService.cs:101-116 | appending an accepted link keeps every link's ends existing and the (store, meal) pairs unique |
| DataManagement.StoresOkAfterAppend | Services/DataManagementService.cs:34-48 | appending an accepted store keeps store ids and names unique |
| DataManagement.MealsOkAfterAppend | Services/DataManagementService.cs:67-81 | appending an accepted meal keeps meal ids and (name, food type) pairs unique, with the food type existing |
| DataManagement.DataManagementService.AddStore | Services/DataManagementService.cs:22-52 | it fails exactly when the guard rejects, with the guard's exception and no change; otherwise exactly one active store with the given name and genre and the next id is appended, and the database stays valid |
| DataManagement.DataManagementService.AddMeal | Services/DataManagementService.cs:54-85 | it fails exactly when the guard rejects, with no change; otherwise exactly one meal is appended, with a null description stored as "", and the database stays valid |
| DataManagement.DataManagementService.LinkStoreMeal | Services/DataManagementService.cs:87-120 | it fails exactly when the guard rejects, with no change; otherwise exactly one available link with the given price is appended, and the database stays valid |
| DataManagement.DataManagementService.GetAllStores | Services/DataManagementService.cs:122-125 | the active stores sorted by name, each as often as in the table |
| DataManagement.DataManagementService.GetAllMeals | Services/DataManagementService.cs:127-134 | the meals with their food types, each as often as in the join, sorted by food type name and then meal name |
| DataManagement.DataManagementService.GetAllFoodTypes | Services/DataManagementService.cs:136-139 | all food types sorted by name |
| Data.AppDbContext.constructor | Data/ApplicationDbContext.cs:61-65 | a fresh database holds the three seeded food types and empty tables, and is valid |

## Left out

- LunchDecisions.ComboKey: computed over unbounded integers. The code computes the key in two places. For the recent ids (Services/LunchDecisionService.cs:32), the query computes it in SQLite's 64-bit arithmetic and the result is read back as an `int`. For the options (line 49), C# computes it in 32-bit `int` arithmetic, which wraps. Neither narrowing is modelled. Both matter only once `StoreId * 10000 + MealId` exceeds 2^31 − 1. With meal ids below 10000, that happens from store id 214748 on; a large enough meal id overflows with any positive store id.
- LunchDecisions.Options: the decision queries have no `ORDER BY`, so the order of the rows the draw indexes is SQLite's and is not guaranteed. The model fixes it to table order. Since `roll` stands for an arbitrary random value, the set of possible results is the same.
- LunchDecisions.Draw: `random.Next` is a caller-supplied roll. That the draw is uniform is a probabilistic claim and is not stated. The `Random` object's internal state is not modelled.
- Clock: `today` and `now` are independent parameters. The model does not relate them through calendar or time-zone arithmetic; the window start is `today` minus one day.
- The code's `LunchDecisionService.GetAllStoresAsync` and `GetAllFoodTypesAsync` run the same queries as those of `DataManagementService`. They are modelled once, as `Catalogue.ActiveStoresByName` and `Catalogue.FoodTypesByName`, which `DataManagementService`'s methods return.
- Asynchrony, transactions and concurrency: each service call is one sequential step, and `SaveChangesAsync` is taken to succeed. Data-access exceptions are not modelled.
- Logging: all `logger` calls.
- The outer try/catch of `RegisterCommandsAsync` (enumerating `client.Guilds` failing) is not modelled: the guild list is a field.
- Discord commands are modelled by their names only. Creation appends the name. The command builders, options and Discord's overwrite of an existing name are not modelled. The last only matters for a registry that repeats a name, which the real registry does not.
- The effects of the command handlers (Commands/OhiruCommand.cs and its siblings) are not part of this model. Dispatch only says which handler runs.
- The decimal price is a `real`. SQL's order among rows with equal sort keys is not specified, so each listing is promised sorted and a permutation of the rows it lists, not a particular order among equal keys.
- The discriminator and message texts of exceptions: an exception is its type plus the parameter name (`ArgumentException`) or a reason tag (`InvalidOperationException`).
