/**
 * The Python scraper's functions as they run against the database: each
 * method changes the three tables step by step and is proved to leave
 * exactly what the matching function of `ScraperStore` describes.
 */
module ScraperDb {
  import opened Wrappers
  import opened Schema
  import opened Text
  import opened ScraperStore

  /** The database the scraper writes to. */
  class Database {
    var items: map<string, ItemRecord>
    var menus: map<nat, MenuRecord>
    var nextId: nat
    var links: set<(nat, string)>

    /** The current contents of the tables. */
    function Snapshot(): Tables
      reads this
    {
      Tables(items, menus, nextId, links)
    }

    /** Freshly created tables. */
    constructor()
      ensures Snapshot() == EmptyTables
    {
      items := map[];
      menus := map[];
      nextId := 1;
      links := {};
    }

    /** `add_item(item_data)`. */
    method AddItem(item: ItemPayload)
      modifies this
      ensures Snapshot() == ItemAdded(old(Snapshot()), item)
    {
      if item.name !in items {
        items := items[item.name := ItemRecordOf(item)];
      }
    }

    /** `add_menu(date, meal, location, status)`. */
    method AddMenu(date: Date, meal: Meal, location: Option<string>, status: Status) returns (id: Option<nat>)
      modifies this
      ensures Insertion(Snapshot(), id) == MenuAdded(old(Snapshot()), date, meal, location, status)
    {
      var drawn := nextId;
      nextId := nextId + 1;
      if exists k :: k in menus && KeyOf(menus[k]) == (date, meal, location) {
        return None;
      }
      menus := menus[drawn := MenuRecord(date, meal, location, status)];
      id := Some(drawn);
    }

    /** `add_menu_items(menu_id, items)`. */
    method AddMenuItems(id: Option<nat>, names: seq<string>)
      modifies this
      ensures Snapshot() == LinksAdded(old(Snapshot()), id, names)
    {
      if id.None? || id.value !in menus || exists n :: n in names && n !in items {
        return;
      }
      var i := 0;
      while i < |names|
        invariant 0 <= i <= |names|
        invariant links == old(links) + LinksOf(id.value, names[..i])
        invariant items == old(items) && menus == old(menus) && nextId == old(nextId)
      {
        assert LinksOf(id.value, names[..i + 1]) == LinksOf(id.value, names[..i]) + {(id.value, names[i])};
        links := links + {(id.value, names[i])};
        i := i + 1;
      }
      assert names[..i] == names;
    }

    /** The refresh deletion: the date's links, then the date's menus. */
    method ClearDate(date: Date)
      modifies this
      ensures Snapshot() == DateCleared(old(Snapshot()), date)
    {
      links := set l | l in links && !(l.0 in menus && menus[l.0].date == date);
      menus := map id | id in menus && menus[id].date != date :: menus[id];
    }

    /** `for meal_type in MEAL_TYPES: add_menu(date, meal_type, None, "closed")`. */
    method AddClosedDay(date: Date)
      modifies this
      ensures Snapshot() == ClosedDay(old(Snapshot()), date)
    {
      ghost var start := Snapshot();
      var i := 0;
      while i < |MealOrder|
        invariant 0 <= i <= |MealOrder|
        invariant Snapshot() == ClosedMenusAdded(start, date, MealOrder[..i])
      {
        assert MealOrder[..i + 1][..i] == MealOrder[..i];
        var _ := AddMenu(date, MealOrder[i], None, Closed);
        i := i + 1;
      }
      assert MealOrder[..i] == MealOrder;
    }

    /** The item loop of one category: strip, add, and collect each name. */
    method AddItems(items: seq<ItemPayload>) returns (names: seq<string>)
      modifies this
      ensures Snapshot() == ItemsAdded(old(Snapshot()), items)
      ensures names == StrippedNames(items)
    {
      ghost var start := Snapshot();
      names := [];
      var j := 0;
      while j < |items|
        invariant 0 <= j <= |items|
        invariant Snapshot() == ItemsAdded(start, items[..j])
        invariant names == StrippedNames(items[..j])
      {
        ItemsAddedStep(start, items, j);
        var item := Stripped(items[j]);
        AddItem(item);
        names := names + [item.name];
        j := j + 1;
      }
      assert items[..j] == items;
    }

    /** One category: its items, its open menu, and the links between them. */
    method AddCategory(date: Date, meal: Meal, category: Category)
      modifies this
      ensures Snapshot() == CategoryAdded(old(Snapshot()), date, meal, category)
    {
      var names := AddItems(category.items);
      var menuId := AddMenu(date, meal, Some(category.name), Open);
      AddMenuItems(menuId, names);
    }

    /** The categories of one meal, in order. */
    method AddCategories(date: Date, meal: Meal, categories: seq<Category>)
      modifies this
      ensures Snapshot() == CategoriesAdded(old(Snapshot()), date, meal, categories)
    {
      ghost var start := Snapshot();
      var c := 0;
      while c < |categories|
        invariant 0 <= c <= |categories|
        invariant Snapshot() == CategoriesAdded(start, date, meal, categories[..c])
      {
        CategoriesAddedStep(start, date, meal, categories, c);
        AddCategory(date, meal, categories[c]);
        c := c + 1;
      }
      assert categories[..c] == categories;
    }

    /** `for meal_hash, meal_type in meals.items()`. */
    method AddMeals(date: Date, meals: seq<(string, Meal)>, fetch: Fetch)
      modifies this
      ensures Snapshot() == MealsAdded(old(Snapshot()), date, meals, fetch)
    {
      ghost var start := Snapshot();
      var i := 0;
      while i < |meals|
        invariant 0 <= i <= |meals|
        invariant Snapshot() == MealsAdded(start, date, meals[..i], fetch)
      {
        assert meals[..i + 1] == meals[..i] + [meals[i]];
        MealsAddedSnoc(start, date, meals[..i], meals[i], fetch);
        var (periodId, meal) := meals[i];
        AddCategories(date, meal, fetch(date, periodId));
        i := i + 1;
      }
      assert meals[..i] == meals;
    }

    /**
     * `scrape_menus(date, refresh_menus)`, given the parsed periods payload
     * and the menu endpoint's answers: it raises exactly when the payload has
     * no periods, and then nothing was written; otherwise the tables end as
     * `Scraped` describes.
     */
    method ScrapeMenus(date: Date, refresh: bool, periods: Option<seq<Period>>, fetch: Fetch)
      returns (res: Result<(), ScrapeError>)
      modifies this
      ensures res.Err? <==> periods.None?
      ensures res.Err? ==> Snapshot() == old(Snapshot())
      ensures res.Ok? ==> Snapshot() == Scraped(old(Snapshot()), date, refresh, periods, fetch).value
    {
      if refresh {
        if periods.None? {
          return Err(MissingPeriods);
        }
        ClearDate(date);
      }
      if periods.None? {
        return Err(MissingPeriods);
      }
      if periods.value == [] {
        AddClosedDay(date);
        return Ok(());
      }
      var meals := Entries(MealsById(periods.value));
      AddMeals(date, meals, fetch);
      res := Ok(());
    }

    /** `SELECT MAX(date)` over a non-empty set of stored dates. */
    method LatestOf(dates: set<Date>) returns (latest: Date)
      requires dates != {}
      ensures latest == Latest(dates)
    {
      if forall y :: y !in dates {
        assert false;
      }
      latest :| latest in dates;
      var rest := dates - {latest};
      while rest != {}
        invariant rest <= dates && latest in dates
        invariant forall d :: d in dates && d !in rest ==> d <= latest
        decreases |rest|
      {
        if forall y :: y !in rest {
          assert false;
        }
        var x :| x in rest;
        if x > latest {
          latest := x;
        }
        rest := rest - {x};
      }
      assert forall d :: d in dates ==> d <= latest;
    }

    /** `DELETE FROM menus WHERE date = (SELECT MAX(date) FROM menus)`. */
    method ClearLatest()
      modifies this
      ensures Snapshot() == LatestCleared(old(Snapshot()))
    {
      var stored := Dates(Snapshot());
      if stored != {} {
        var latest := LatestOf(stored);
        ClearDate(latest);
      }
    }

    /** `scrape_menus(d)` for each day in order, until one raises. */
    method ScrapeDays(dates: seq<Date>, periodsFor: Date -> Option<seq<Period>>, fetch: Fetch) returns (finished: bool)
      modifies this
      ensures ScrapedAll(old(Snapshot()), dates, periodsFor, fetch) == Run(Snapshot(), !finished)
    {
      ghost var start := Snapshot();
      var i := 0;
      while i < |dates|
        invariant 0 <= i <= |dates|
        invariant ScrapedAll(start, dates[..i], periodsFor, fetch) == Run(Snapshot(), false)
      {
        ScrapedAllStep(start, dates, periodsFor, fetch, i);
        var res := ScrapeMenus(dates[i], false, periodsFor(dates[i]), fetch);
        if res.Err? {
          ScrapedAllStops(start, dates, periodsFor, fetch, i + 1);
          return false;
        }
        i := i + 1;
      }
      assert dates[..i] == dates;
      return true;
    }

    /**
     * `main()`: the latest stored date's menus are deleted, then every day
     * of [START_DATE, END_DATE) without stored menus is scraped in
     * ascending order; the first day that raises ends the run.
     */
    method RunMain(periodsFor: Date -> Option<seq<Period>>, fetch: Fetch) returns (finished: bool)
      modifies this
      ensures var cleared := LatestCleared(old(Snapshot()));
              var run := ScrapedAll(cleared, MissingDates(StartDate, EndDate, Dates(cleared)), periodsFor, fetch);
              Snapshot() == run.tables && finished == !run.raised
    {
      ClearLatest();
      var missing := MissingDates(StartDate, EndDate, Dates(Snapshot()));
      finished := ScrapeDays(missing, periodsFor, fetch);
    }
  }
}
