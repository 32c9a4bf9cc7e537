# SJSU Eats backend, modelled in Dafny

This project models the core of the SJSU Eats backend. The backend caches the campus
dining menus in a relational store and serves them over HTTP. Four pieces are modelled:

- **`app.py`**, the Flask service. It folds the flat rows of one date into the
  `breakfast`/`lunch`/`dinner` response (`get_menus`). It also groups search hits by
  date (`get_search_results`) and projects calories, protein and image per item
  (`get_items`). Modules: `MenuApi` (`menu_api.dfy`), `MenuApiProps` (`menu_api_props.dfy`)
  and `Search` (`search.dfy`).
- **`backend/app.py`**, the older Flask service. Its `get_menus` scrapes a date that has no
  rows, guarded by the module-level `currently_scraping` set. It then assigns each row's
  `items` array under its meal and location. It has its own search and item index.
  Module: `BackendApi` (`backend_api.dfy`), where a `Server` class holds the set.
- **`scraper/scraper.py`**, the Python scraper. It covers:
  - item normalisation (`add_item`);
  - the menu, item and link rows a periods/categories payload produces (`scrape_menus`);
  - the delete-then-insert refresh;
  - `main`, which deletes the latest stored date and scrapes the missing dates of
    [`START_DATE`, `END_DATE`).

  The store has three tables: `items` keyed by name; `menus` with a serial id, unique on
  (date, meal, location) with NULLs equal (`database/setup.py`); and `menu_items` as a set
  of pairs. `ScraperStore` (`scraper_store.dfy`) states what each call leaves in the store.
  `ScraperDb` (`scraper_db.dfy`) is a `Database` class whose methods change the tables step
  by step and are proved to end where `ScraperStore` says. `ScraperProps`
  (`scraper_props.dfy`) proves what the writes guarantee.
- **`internal/scraper/scraper.go`**, the Go scraper's `Save` for one meal of one day.
  Its steps are:
  - the `(date, meal)` guard;
  - the closed-day shortcut;
  - the transaction with its deferred commit/rollback;
  - the nutrient and label loops;
  - insert-if-absent for `Items`;
  - one `MenuItems` row per item.

  Module: `GoSave` (`go_save.dfy`), with a `Database` class.

Shared pieces:
- `Text` (`text.dfy`): Python's `strip`, Go's `TrimSpace`, the cut at `" ("`, and the
  removal of `^`.
- `Dicts` (`dicts.dfy`) and `Lists` (`lists.dfy`): dictionary comprehensions where the last
  key wins, and filtered list comprehensions.
- `Normalise` (`normalise.dfy`): the nutrient and label rules of both scrapers.
- `Schema` (`schema.dfy`): the meal and status enumerations.
- `Wrappers` (`wrappers.dfy`): `Option` and `Result`.

Database reads, HTTP payloads and `is_valid_date` are inputs. So are the outcome of
`scrape_menus` and which Go statements the database refuses.

Some properties of the code that the model keeps:
- `get_menus` has no post-pass that closes a meal whose locations are all closed
  (`MenuApiProps.AllLocationsClosedNotCollapsed`).
- Its result depends on the order of the rows (`MenuApiProps.AssembleDependsOnOrder`).
- An open row with no item closes its location rather than listing it as empty.
- The only coordination between scrapes is the `currently_scraping` set of the older
  service.

## Model

| member | source | states |
|---|---|---|
| Schema.MealOfSlug | scraper/scraper.py:133-137 | A slug names a meal exactly when it is in `MEAL_TYPES`, and that meal's name is the slug. |
| Schema.MealNameRoundTrip | scraper/scraper.py:19 | Every meal's name is in `MEAL_TYPES` and maps back to the same meal. |
| Text.TrimCutsSpace | scraper/scraper.py:27 | `strip()` returns the slice after the leading whitespace. Everything cut off on either side is whitespace, and the result neither starts nor ends with whitespace. |
| Text.TrimOfTrimmed | internal/scraper/scraper.go:159 | A string with no whitespace at either end is its own `TrimSpace`. |
| Text.TrimIdempotent | scraper/scraper.py:153 | Stripping an already stripped name changes nothing. |
| Text.BeforeParenSplits | scraper/scraper.py:27 | `split(" (")[0]` is a prefix with no earlier `" ("`. It is either the whole name or is followed by `" ("`. |
| Text.BeforeParenNoSep | internal/scraper/scraper.go:168 | `SplitN(name, " (", 2)[0]` of a name without `" ("` is the whole name. |
| Text.RemoveCharCounts | scraper/scraper.py:43 | `replace("^", "")` leaves no `^`, keeps every other character as often as it occurred, and shortens the text by the number of carets. |
| Text.RemoveCharAppend | scraper/scraper.py:43 | Removing carets from two joined texts is removing them from each, so the kept characters stay in order. |
| Text.RemoveCharAbsent | scraper/scraper.py:43 | A text without `^` is unchanged by the removal. |
| Dicts.DictOfIsDict | scraper/scraper.py:26-29 | A dictionary comprehension holds every element's key and only those. Each key holds the value of the last element with that key. |
| Dicts.DictOfSnoc | internal/scraper/scraper.go:170 | Storing one more entry in a map overwrites its key and keeps the rest. |
| Lists.SelectKeeps | scraper/scraper.py:30-34 | A filtered comprehension lists every kept element's image and has at most one entry per element. |
| Lists.SelectFrom | scraper/scraper.py:30-34 | Every listed value is the image of a kept element. |
| Lists.SelectAppend | scraper/scraper.py:30-34 | Filtering two joined lists is filtering each, so input order is kept. |
| Lists.SelectSnoc | internal/scraper/scraper.go:179-182 | Appending under a condition adds the element's image at the end exactly when the condition holds. |
| Search.GroupByDate | app.py:80-84 | The keys are exactly the dates of the rows. Each date maps to the set of item names found on it. The same loop is backend/app.py:71-74. |
| MenuApi.Menus.Set | app.py:131 | `menus[meal] = v` replaces that meal and keeps the other two. |
| MenuApi.AssembleErrSticks | app.py:124-138 | Once a row raises, the loop's outcome is that exception. |
| MenuApi.GetMenus | app.py:96-140 | An invalid date gets the 400 error whatever the store holds. A date without rows gets "No menus found for this date.". Otherwise the answer is the fold of the rows in order, or the exception it raises. |
| MenuApi.NutrientOrNone | app.py:52-53 | The value is present exactly when nutrients are stored and hold the key, and then it is the stored value. |
| MenuApi.ItemIndex | app.py:50-57 | Every row's name is a key. Each key holds the calories, protein and image of the last row with that name. |
| MenuApi.SearchResults | app.py:66-84 | The 400 error is returned exactly when the query has fewer than 3 or more than 50 characters. Otherwise each date of the hits maps to its distinct item names. |
| MenuApiProps.AssemblePerMeal | app.py:124-138 | The fold succeeds exactly when each meal's rows, taken alone, succeed. Each meal's dictionary is then what its own rows build, so a row never changes another meal. |
| MenuApiProps.MealWithoutRowsStaysEmpty | app.py:99-103 | A meal that no row mentions stays `{}` and is not reported closed. |
| MenuApiProps.MealCloseResets | app.py:129-131 | A closed or item-less row with a falsy location discards everything before it. The meal then develops as if that row came first. |
| MenuApiProps.MealCloseDiscards | app.py:130-131 | Right after such a row, the meal is exactly `{"closed": True}`. |
| MenuApiProps.LocationCloseOnlyThat | app.py:132-133 | A closed or item-less row with a location sets that location to `{"closed": True}`. The other keys are unchanged. |
| MenuApiProps.ItemsInOrder | app.py:134-138 | While nothing closes the meal or the location, the location's entry exists exactly when some row names it. It lists that location's items in row order, duplicates kept. |
| MenuApiProps.MealCloseThenOpenMixesKeys | app.py:131-138 | After a whole-meal close, whatever the meal held before, an open row at any key other than "closed" leaves the meal as `{"closed": True}` plus that location listing its one item. |
| MenuApiProps.LocationCloseThenOpenRaises | app.py:133-138 | Whatever the meal held before, an open row right after its location was closed raises a KeyError on `"items"`. |
| MenuApiProps.OpenThenLocationClose | app.py:132-138 | The same two rows in the other order close the location. |
| MenuApiProps.AssembleDependsOnOrder | app.py:124-138 | Two orderings of the same rows give different results. |
| MenuApiProps.ClosedLocationNameAfterMealClose | app.py:131-138 | Whatever the meal held before, an open row at a location named "closed" right after a whole-meal close raises a TypeError. |
| MenuApiProps.AllLocationsClosedNotCollapsed | app.py:129-133 | Closing every location one by one does not close the meal as a whole. |
| MenuApiProps.LunchOnlyDay | app.py:124-140 | Breakfast and dinner closed, plus two lunch items at one location, give the expected nested answer. |
| BackendApi.AssignAllErrSticks | backend/app.py:119-121 | Once a row raises, the loop's outcome is that exception. |
| BackendApi.AssignKeepsMeals | backend/app.py:119-121 | A loop that succeeds adds no meal key and does not change the `new` flag. |
| BackendApi.LastRowWins | backend/app.py:119-121 | Every row with `items` overwrites `menus[meal][location]`. A location holds the items of the last row stored under it. |
| BackendApi.UnstoredLocationKept | backend/app.py:119-121 | A location that no row stores under keeps what it held, and is present exactly when it was before. |
| BackendApi.Server.constructor | backend/app.py:20 | `currently_scraping` starts empty. |
| BackendApi.Server.GetMenus | backend/app.py:87-123 | An invalid date gets 400 before the set is touched. Stored rows are answered from without a scrape. A date already in the set is not scraped again and gets the error object. A scrape that raises leaves its date in the set. A scrape that returns restores the set. Rows are re-read and marked `new` only on success. |
| BackendApi.WithoutName | backend/app.py:50 | The columns of a row other than `name`, with their values. |
| BackendApi.ItemIndex | backend/app.py:49-52 | Every row's name is a key. Each key holds the other columns of the last row with that name. |
| BackendApi.SearchResults | backend/app.py:62-74 | A query outside 3..50 characters gets `{}`. Otherwise each date of the hits maps to its distinct item names. |
| Normalise.PyNutrientsLastWins | scraper/scraper.py:26-29 | Every nutrient's key (the stripped text before `" ("`) is stored and none is filtered out. Each key holds the stripped value plus the stripped unit of the last entry with that key. |
| Normalise.KeptMembers | internal/scraper/scraper.go:162-166 | The nutrients Go keeps are exactly those whose trimmed value is neither "0" nor "-". |
| Normalise.GoNutrientsStep | internal/scraper/scraper.go:162-171 | In each pass, a kept entry overwrites its key with the trimmed value plus the trimmed unit. A dropped entry changes nothing. |
| Normalise.GoStoredKeysAreKept | internal/scraper/scraper.go:163-170 | Every stored key comes from a kept entry and holds a kept entry's value. |
| Normalise.GoKeepsKeptKeys | internal/scraper/scraper.go:168-170 | Every kept entry's key is stored. |
| Normalise.PyLabelsListed | scraper/scraper.py:30-34 | A name is listed exactly when some entry whose `type` is exactly "label" has that stripped name. |
| Normalise.GoLabelsListed | internal/scraper/scraper.go:178-183 | A name is listed exactly when some entry whose trimmed `Type` is "label" has that trimmed name. |
| Normalise.PythonLabelsAreGoLabels | scraper/scraper.py:33 | Python's exact "label" test accepts no entry that Go's trimmed test rejects. |
| ScraperStore.StripOrNone | scraper/scraper.py:41-42 | `None` stays `None`. Any other value is stripped and has no whitespace at either end. |
| ScraperStore.CleanIngredientsDropsCarets | scraper/scraper.py:43 | The stored ingredients contain no `^`. Every other character of the stripped text is kept as often as it occurred. |
| ScraperStore.ItemAdded | scraper/scraper.py:36-48 | A new name is inserted with the normalised row. A name already stored leaves the store unchanged. Menus, links and the serial are untouched. |
| ScraperStore.MenuAdded | scraper/scraper.py:53-67 | The serial always advances. The insert succeeds and returns the drawn id exactly when no stored menu has that (date, meal, location). Otherwise nothing else changes and `None` is returned. Either way the key is stored afterwards. |
| ScraperStore.LinksOf | scraper/scraper.py:75 | The pairs written are exactly (menu id, n) for the listed names n. |
| ScraperStore.LinksAdded | scraper/scraper.py:69-81 | The batch adds every (id, name) pair when the id is a stored menu and every name a stored item. Otherwise it changes nothing. A pair already stored is skipped. |
| ScraperStore.DateCleared | scraper/scraper.py:108-117 | The refresh deletes exactly the date's menus and the links to them. Everything else is kept. |
| ScraperStore.StrippedNames | scraper/scraper.py:151-155 | The category's `items` list is its items' stripped names, in order. |
| ScraperStore.ItemsAdded | scraper/scraper.py:152-155 | After the item loop every stripped name is stored, no other name is added, and rows stored before are unchanged. |
| ScraperStore.CategoryAdded | scraper/scraper.py:150-159 | A category leaves a menu at (date, meal, category name). Any menu it adds is open and at that name. |
| ScraperStore.CategoriesAdded | scraper/scraper.py:150-159 | A meal's categories keep the store's constraints. They add only open menus of that date and meal, each at a location. Category names are strings here; a null name is under "## Left out". |
| ScraperStore.MealsAdded | scraper/scraper.py:139-159 | A day's meals keep the store's constraints. They add only open menus of that date, each at a location. Category names are strings here; a null name is under "## Left out". |
| ScraperStore.ClosedMenusAdded | scraper/scraper.py:128-129 | Afterwards each listed meal has a menu with the key (date, meal, NULL): the one inserted, or the one whose key made the insert fail. No item or link is written. |
| ScraperStore.ClosedDay | scraper/scraper.py:126-131 | Closing a day keeps the store's constraints and everything stored before. |
| ScraperStore.Stored | scraper/scraper.py:133-137 | `meals[id] = m`: an id already present keeps its place and takes the new meal. A new id goes last. |
| ScraperStore.MealsById | scraper/scraper.py:133-137 | Every meal period's id is a key and is listed once; the listed ids are exactly the keys. |
| ScraperStore.MealsByIdFirstOrder | scraper/scraper.py:133-139 | The ids come in the order of their first meal periods in the payload. This is the order in which the meal loop visits them. |
| ScraperStore.MealsByIdLastWins | scraper/scraper.py:133-137 | Each id maps to the meal of its last meal period. |
| ScraperStore.Entries | scraper/scraper.py:139 | `meals.items()` lists each id once, in insertion order, with its meal. |
| ScraperStore.Scraped | scraper/scraper.py:84-161 | `scrape_menus` raises exactly when the payload has no "periods". Otherwise it keeps the store's constraints. |
| ScraperStore.Latest | scraper/scraper.py:167 | `MAX(date)` is a stored date no earlier than any other. |
| ScraperStore.MissingDates | scraper/scraper.py:177-178 | Exactly the days of [start, end) without stored menus, in strictly increasing order. |
| ScraperStore.ScrapedAll | scraper/scraper.py:180-184 | Scraping the days in order keeps the store's constraints. |
| ScraperStore.ScrapedAllStep | scraper/scraper.py:180-182 | A day raises exactly when an earlier one did or its payload has no periods. |
| ScraperStore.ScrapedAllStops | scraper/scraper.py:180-182 | Once a day raises, the later days are not scraped. |
| ScraperDb.Database.constructor | database/setup.py:20-29 | A fresh database: empty tables, with the serial at 1. |
| ScraperDb.Database.AddItem | scraper/scraper.py:25-51 | `add_item` leaves exactly what `ItemAdded` describes. |
| ScraperDb.Database.AddMenu | scraper/scraper.py:53-67 | `add_menu` returns the id and leaves the tables as `MenuAdded` describes. |
| ScraperDb.Database.AddMenuItems | scraper/scraper.py:69-81 | `add_menu_items` leaves exactly what `LinksAdded` describes. |
| ScraperDb.Database.ClearDate | scraper/scraper.py:108-119 | The two deletions leave exactly what `DateCleared` describes. |
| ScraperDb.Database.AddClosedDay | scraper/scraper.py:126-131 | The closed-day loop leaves exactly what `ClosedDay` describes. |
| ScraperDb.Database.AddItems | scraper/scraper.py:151-155 | The item loop leaves `ItemsAdded` and returns the stripped names in order. |
| ScraperDb.Database.AddCategory | scraper/scraper.py:150-159 | One category leaves exactly what `CategoryAdded` describes. |
| ScraperDb.Database.AddCategories | scraper/scraper.py:150-161 | The category loop leaves exactly what `CategoriesAdded` describes. |
| ScraperDb.Database.AddMeals | scraper/scraper.py:139-161 | The meal loop leaves exactly what `MealsAdded` describes. |
| ScraperDb.Database.ScrapeMenus | scraper/scraper.py:84-161 | `scrape_menus` raises exactly when the payload has no periods, and then has written nothing. Otherwise the tables end as `Scraped` describes. |
| ScraperDb.Database.LatestOf | scraper/scraper.py:165-168 | The loop finds the latest stored date. |
| ScraperDb.Database.ClearLatest | scraper/scraper.py:164-168 | The first deletion of `main` removes the latest date's menus and links, or nothing when there are no menus. |
| ScraperDb.Database.ScrapeDays | scraper/scraper.py:180-184 | The day loop ends as `ScrapedAll` describes, and reports whether a day raised. |
| ScraperDb.Database.RunMain | scraper/scraper.py:163-184 | `main` deletes the latest date, then scrapes the missing days of [`START_DATE`, `END_DATE`) in ascending order until one raises. |
| ScraperProps.ClosedMenuOnDay | scraper/scraper.py:129 | A closed menu for a meal the day lacks is the only menu the day gains. |
| ScraperProps.ClosedMenusOnEmptyDay | scraper/scraper.py:128-129 | On a day without menus, closing distinct meals stores exactly those closed NULL-location menus. |
| ScraperProps.ClosedDayExactlyThree | scraper/scraper.py:126-131 | An empty periods list on a new or refreshed day leaves exactly three closed NULL-location menus, one per meal. It writes no item and no link, and the menus of every other day are unchanged. |
| ScraperProps.ClosedMenusKeepOtherDays | scraper/scraper.py:128-129 | Closing a day's meals leaves the menus of every other day as they were. |
| ScraperProps.RefreshReplacesDay | scraper/scraper.py:104-117 | With `refresh_menus`, every menu of the day afterwards was drawn by this scrape. Other days' menus are untouched. |
| ScraperProps.OpenDayAddsOnlyOpenMenus | scraper/scraper.py:150-159 | A non-empty periods list adds only open menus of that day, each at a location. Category names are strings here; a null name is under "## Left out". |
| ScraperProps.CategoriesHaveMenus | scraper/scraper.py:150-157 | Every category of a meal ends with a menu at its name. |
| ScraperProps.MealsHaveMenus | scraper/scraper.py:139-157 | Every category returned for a listed period ends with a menu under that period's meal. |
| ScraperProps.ScrapedDayHasEveryCategory | scraper/scraper.py:133-159 | After a scrape, every category of every meal period has a menu under the meal its id was last given. |
| ScraperProps.ItemsAddedAppend | scraper/scraper.py:152-155 | Adding two runs of items is adding their concatenation. |
| ScraperProps.FirstItemWins | scraper/scraper.py:36-48 | A new name is stored with the row of the first item carrying it. Later duplicates leave that row alone. |
| ScraperProps.LinksAddedIdempotent | scraper/scraper.py:72-76 | Linking the same names to the same menu twice changes nothing more. |
| ScraperProps.CategoryLinksItsItems | scraper/scraper.py:150-159 | A category with a new (date, meal, name) gets an open menu linked to each of its items' stripped names. |
| ScraperProps.RepeatedCategoryUnlinked | scraper/scraper.py:157-159 | A second category with the same name in the same meal gets no menu, and its items are linked to nothing. |
| ScraperProps.LatestClearedDates | scraper/scraper.py:164-168 | `main`'s deletion removes exactly the latest stored date. |
| ScraperProps.ScrapedAllRaises | scraper/scraper.py:180-182 | A run raises exactly when some day's payload has no periods. |
| ScraperProps.CaretLeavesSpace | scraper/scraper.py:43 | Carets are removed after stripping, so "^ egg" is stored as " egg", with a leading space. |
| GoSave.MealOfPeriodId | internal/scraper/scraper.go:21-25 | A period id gives a meal exactly when it is in `mealTypes`, and that meal's name is its value there. |
| GoSave.MealTypeIdsNameEachMealOnce | internal/scraper/scraper.go:21-25 | Each meal is named by exactly one id of `mealTypes`. |
| GoSave.MenuInserted | internal/scraper/scraper.go:145 | After the `Menus` insert, the date and meal have a row. |
| GoSave.CategoryPlacementsAt | internal/scraper/scraper.go:151-159 | A category's items are visited in order, under the trimmed category name. |
| GoSave.PlacementsAppend | internal/scraper/scraper.go:151-158 | Categories are visited in order, so splitting the categories splits the visited items. |
| GoSave.PlacementsFrom | internal/scraper/scraper.go:151-158 | Every visited item belongs to a category with items, and is placed under that category's trimmed name. |
| GoSave.PlacementsStep | internal/scraper/scraper.go:151-156 | A category adds its items, and a category with no items adds none. |
| GoSave.MenuItemRows | internal/scraper/scraper.go:202-204 | One `MenuItems` row (menu id, trimmed name, trimmed location) per visited item, in order. |
| GoSave.PlaceStepEffects | internal/scraper/scraper.go:190-208 | A pass fails exactly on its faulted step. It never changes `Menus`, the identity or a stored item. On success the name is stored and one `MenuItems` row is appended. |
| GoSave.PlacedAllFails | internal/scraper/scraper.go:158-209 | The loop fails exactly when the fault falls on one of its steps. |
| GoSave.PlacedAllKeeps | internal/scraper/scraper.go:190-196 | The loop never touches `Menus`, the identity or an existing `Items` row. |
| GoSave.PlacedAllRows | internal/scraper/scraper.go:202-204 | Without a fault, the loop appends exactly one `MenuItems` row per visited item, in order. |
| GoSave.PlacedAllNames | internal/scraper/scraper.go:190-196 | Without a fault, every visited item's trimmed name is stored. |
| GoSave.PlacedAllAppend | internal/scraper/scraper.go:151-209 | The loop over joined lists runs over the first, then, unless it failed, over the second. |
| GoSave.PlacedAllErrSticks | internal/scraper/scraper.go:198-208 | Once a pass returns an error, the loop ends with it. |
| GoSave.PlacedAllEmptyCategory | internal/scraper/scraper.go:154-156 | A category with no items adds nothing to the loop. |
| GoSave.PlacedAllCategory | internal/scraper/scraper.go:158-209 | The loop up to a category with items is the loop before it, then its items. |
| GoSave.PlacedAllCategoryFails | internal/scraper/scraper.go:206-208 | A failure in an earlier category is the outcome of the whole loop. |
| GoSave.SaveDrawsAtMostOneId | internal/scraper/scraper.go:143-148 | `Save` draws at most one identity value, the one the `Menus` insert takes. |
| GoSave.SavedAtomically | internal/scraper/scraper.go:135-141 | With rollback on every returned error, the error is the one `Save` returns, and every row of the three tables is as before. Only an identity value drawn in the transaction stays spent, as SQL Server does not roll back `IDENTITY`. Success is as written. |
| GoSave.SavedMealUnchanged | internal/scraper/scraper.go:109-117 | A date and meal already in `Menus` are left alone and nil is returned. |
| GoSave.SaveStoresMeal | internal/scraper/scraper.go:100-215 | After a `Save` that returned nil and whose commit did not fail, the date and meal are in `Menus`, whatever statement failed. |
| GoSave.CommitFailureReturnsNil | internal/scraper/scraper.go:135-141 | As written, when the deferred `tx.Commit()` of a new open day fails, its error is discarded. `Save` returns nil, no row is written, and the date and meal are still missing. |
| GoSave.SaveIdempotent | internal/scraper/scraper.go:109-117 | Saving a date and meal again, after a nil-returning save whose commit did not fail, changes nothing and returns nil. |
| GoSave.ClosedWritesOneMenu | internal/scraper/scraper.go:120-126 | A closed response for a new date and meal writes exactly one `Menus` row and no `Items` or `MenuItems` row. |
| GoSave.OpenWritesEveryItem | internal/scraper/scraper.go:143-209 | Without failures, an open response writes one `Menus` row and one `MenuItems` row per item in category-then-item order. Every trimmed name is stored and no stored item is modified. |
| GoSave.LoopFailureCommits | internal/scraper/scraper.go:135-208 | As written, a failing first `MenuItems` insert returns its error, yet the deferred handler commits, so the `Menus` row and the item's `Items` row stay. A retry then finds the meal saved and returns nil. |
| GoSave.AtomicLoopFailureWritesNothing | internal/scraper/scraper.go:135-141 | With rollback on the returned error, the same failure returns its error and leaves every row as it was. Only the `Menus` identity value is spent. |
| GoSave.BuildNutrients | internal/scraper/scraper.go:161-171 | The nutrient loop builds the map of kept entries, the last kept entry per key winning. |
| GoSave.BuildFilters | internal/scraper/scraper.go:178-183 | The filter loop builds the trimmed names of the label entries, in order. |
| GoSave.Database.Restore | internal/scraper/scraper.go:137 | `tx.Rollback()` returns the rows of the three tables to their state at `Begin`. The identity keeps the values drawn since. |
| GoSave.Database.CountMenus | internal/scraper/scraper.go:110-114 | The count is positive exactly when the date and meal have a `Menus` row. |
| GoSave.Database.InsertMenu | internal/scraper/scraper.go:145 | The insert appends (next identity, date, meal), advances the identity and returns the drawn id. |
| GoSave.Database.AddItem | internal/scraper/scraper.go:158-208 | One pass of the item loop leaves what `PlaceStep` describes. |
| GoSave.Database.AddCategoryItems | internal/scraper/scraper.go:158-209 | The item loop of one category leaves what `PlacedAll` describes for its items. |
| GoSave.Database.AddMenuItems | internal/scraper/scraper.go:151-210 | The category loop leaves what `PlacedAll` describes for all visited items. |
| GoSave.Database.Save | internal/scraper/scraper.go:100-215 | `Save` leaves the tables and returns the error that `SavedAsWritten` describes. That includes the failed commit whose error the deferred handler drops. |
| GoSave.Database.SaveAtomic | internal/scraper/scraper.go:135-141 | The corrected `Save` leaves what `SavedAtomically` describes. |

## Left out

- HTTP fetching, JSON parsing and serialisation, Flask routing and `jsonify`: payloads and query results are inputs; stored JSON columns are the map or list they encode.
- SQL query semantics (`ILIKE`, `LEFT JOIN`, the one-month window, `LIMIT 100`, `ORDER BY`): the rows a query returns are inputs.
- `is_valid_date` (`datetime.strptime`): an uninterpreted parameter.
- Goroutines, `sync.WaitGroup`, `saveMutex`, `time.sleep` and logging: concurrency and output plumbing with no effect on the tables.
- BackendApi.Server.GetMenus: requests run one at a time; interleaving of concurrent requests on `currently_scraping` is not modelled.
- backend/scraper/scraper.py, which `backend/app.py` imports as `scrape_menus`, is not part of this model; its outcome (returns a bool or raises) is a parameter.
- ScraperStore.ClosedMenusAdded: `MEAL_TYPES` is a Python set whose iteration order is unspecified; the model visits breakfast, lunch, dinner.
- ScraperStore.ItemAdded: any failure other than a duplicate name (for example a name longer than `VARCHAR(64)`) is not modelled; such a row is simply not inserted in the source. Its knock-on effect is not modelled either: the category's `add_menu_items` batch then fails as a whole on the `items(name)` foreign key (database/setup.py:35), so ScraperProps.CategoryLinksItsItems holds only when every item of the category is inserted or already stored.
- ScraperStore.MenuAdded: any failure other than a (date, meal, location) collision (for example a category name longer than `VARCHAR(64)`, database/setup.py:25) is not modelled; in the source such a menu is not inserted, `add_menu` returns `None`, and the category's items are linked to nothing.
- ScraperStore.Scraped: only a missing "periods" key raises in the model. In the source, these also raise:
  - a period or category missing a key;
  - an item missing `nutrients` or `filters`, which `add_item` reads outside its `try` (scraper/scraper.py:26-34);
  - a JSON `null` nutrient `name`, `valueNumeric` or `uom`, or a `null` label `name`. `.split`/`.strip()` raise `AttributeError` there (scraper/scraper.py:27, 31), after the earlier items and menus of the day were committed;
  - a JSON `null` item `name`, whose `.strip()` raises `AttributeError` (scraper/scraper.py:153) after the day's earlier categories were committed;
  - a JSON `null` `categories`, `items`, `nutrients` or `filters` list, which raises `TypeError` when iterated (scraper/scraper.py:150, 152, 28, 32).

  The model types these fields as strings, so such payloads cannot arise in it. A `periods` of JSON `null` takes the closed-day branch, which the model expresses as an empty periods list.

  A JSON `null` category `name` raises nothing: scraper/scraper.py:157 writes an open menu with a NULL location, which the model cannot produce, so the rows that say "each at a location" (ScraperStore.CategoriesAdded, ScraperStore.MealsAdded, ScraperProps.OpenDayAddsOnlyOpenMenus) hold only for string category names.
- ScraperStore.ScrapedAllStep: a day also raises in the source on the malformed payloads listed under ScraperStore.Scraped, which the model cannot express.
- ScraperProps.ScrapedAllRaises: "raises exactly when some payload has no periods" holds only for payloads the model can express. The malformed payloads listed under ScraperStore.Scraped also raise in the source.
- ScraperDb.Database.ScrapeMenus: "raises having written nothing" covers the missing "periods" key only. A malformed item field raises after partial, committed writes, and the model does not cover it.
- ScraperStore.StrippedNames: Python's `str.strip` and Go's `TrimSpace` are modelled on sequences of Unicode scalar values. Text encodings, and Go's handling of invalid UTF-8, are not modelled.
- Dates are day numbers in the Python scraper and strings in the Go scraper; calendar formatting is not modelled.
- GoSave.BuildNutrients: `json.Marshal` of a string map or slice never fails, so its error branches (scraper.go:174-176, 186-188) are not modelled.
- Which statements of the Go `Save` the database refuses, the deferred `tx.Commit()` included, is an input (`Faults`). The reasons (constraint violations, lost connections) are not modelled. The error of `tx.Rollback()` is discarded in the source and has no effect in the model.
- GoSave.Database.InsertMenu: a failed `Menus` insert is modelled as consuming no identity value.
- Database string comparison is exact equality; a case- or trailing-space-insensitive collation is not modelled.
- The image scraper, schema setup and maintenance scripts: outside the modelled core; only the uniqueness constraint of `menus` informs the store.

## Findings

| source | as written | input that shows it | evidently intended | confidence | as-written member | corrected member |
|---|---|---|---|---|---|---|
| internal/scraper/scraper.go:135-208 | `nutrientsJSON, err := json.Marshal(...)` at line 173 declares a new `err` inside the loop, so the failing `tx.Exec` calls assign that inner `err`; the deferred handler reads the function-level `err`, which is nil, and commits | a new open day whose first `MenuItems` insert fails: the error is returned, yet the `Menus` row and the item row are committed, and every retry returns nil without writing the missing rows | every returned error rolls the transaction back | not executed | GoSave.LoopFailureCommits | GoSave.AtomicLoopFailureWritesNothing |
