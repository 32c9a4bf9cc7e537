/**
 * What the Python scraper's writes guarantee about the store, stated over
 * the functions of `ScraperStore`.
 */
module ScraperProps {
  import opened Wrappers
  import opened Schema
  import opened Text
  import opened ScraperStore

  /** The menus stored for one day. */
  function MenusOn(t: Tables, date: Date): set<MenuRecord>
  {
    set id | id in t.menus && t.menus[id].date == date :: t.menus[id]
  }

  /**
   * A closed menu for a meal that has no menu on that day yet is inserted,
   * and it is the only menu that day gains.
   */
  lemma ClosedMenuOnDay(t: Tables, date: Date, meal: Meal)
    requires WellFormed(t)
    requires forall id :: id in t.menus && t.menus[id].date == date ==> t.menus[id].meal != meal
    ensures MenusOn(MenuAdded(t, date, meal, None, Closed).tables, date) == MenusOn(t, date) + {MenuRecord(date, meal, None, Closed)}
  {
    var r := MenuAdded(t, date, meal, None, Closed).tables;
    assert t.nextId !in t.menus;
    assert r.menus == t.menus[t.nextId := MenuRecord(date, meal, None, Closed)];
    assert r.menus[t.nextId] == MenuRecord(date, meal, None, Closed);
  }

  /** The closed, NULL-location menus of `meals` on `date`. */
  function ClosedRecords(date: Date, meals: seq<Meal>): (r: set<MenuRecord>)
    ensures forall m :: m in r ==> m.date == date && m.meal in meals
  {
    if meals == [] then {}
    else
      var n := |meals| - 1;
      assert forall m :: m in meals[..n] ==> m in meals;
      ClosedRecords(date, meals[..n]) + {MenuRecord(date, meals[n], None, Closed)}
  }

  /** Closed menus for distinct meals on a day with no menus: exactly those. */
  lemma {:induction false} ClosedMenusOnEmptyDay(c: Tables, date: Date, meals: seq<Meal>)
    requires WellFormed(c) && MenusOn(c, date) == {}
    requires forall i, j :: 0 <= i < j < |meals| ==> meals[i] != meals[j]
    ensures MenusOn(ClosedMenusAdded(c, date, meals), date) == ClosedRecords(date, meals)
  {
    if meals != [] {
      var n := |meals| - 1;
      var prev := ClosedMenusAdded(c, date, meals[..n]);
      ClosedMenusOnEmptyDay(c, date, meals[..n]);
      assert meals[n] !in meals[..n];
      forall id | id in prev.menus && prev.menus[id].date == date
        ensures prev.menus[id].meal != meals[n]
      {
        assert prev.menus[id] in MenusOn(prev, date);
      }
      ClosedMenuOnDay(prev, date, meals[n]);
    }
  }

  /**
   * An empty periods list on a day with nothing stored (or with `refresh`)
   * leaves exactly three menus for the day, closed with a NULL location,
   * one per meal, and writes no item and no link.
   */
  lemma ClosedDayExactlyThree(t: Tables, date: Date, refresh: bool, fetch: Fetch)
    requires WellFormed(t)
    requires refresh || date !in Dates(t)
    ensures var cleared := if refresh then DateCleared(t, date) else t;
            var r := Scraped(t, date, refresh, Some([]), fetch).value;
            && MenusOn(r, date) == {MenuRecord(date, Breakfast, None, Closed),
                                     MenuRecord(date, Lunch, None, Closed),
                                     MenuRecord(date, Dinner, None, Closed)}
            && r.items == t.items && r.links == cleared.links
            && forall d :: d != date ==> MenusOn(r, d) == MenusOn(t, d)
  {
    var c := if refresh then DateCleared(t, date) else t;
    assert MenusOn(c, date) == {};
    ClosedMenusOnEmptyDay(c, date, MealOrder);
    ClosedRecordsOfEveryMeal(date);
    forall d | d != date
      ensures MenusOn(ClosedMenusAdded(c, date, MealOrder), d) == MenusOn(t, d)
    {
      ClosedMenusKeepOtherDays(c, date, MealOrder, d);
    }
  }

  /** Closing a day's meals leaves the menus of every other day as they were. */
  lemma {:induction false} ClosedMenusKeepOtherDays(c: Tables, date: Date, meals: seq<Meal>, d: Date)
    requires WellFormed(c) && d != date
    ensures MenusOn(ClosedMenusAdded(c, date, meals), d) == MenusOn(c, d)
  {
    if meals != [] {
      var n := |meals| - 1;
      var prev := ClosedMenusAdded(c, date, meals[..n]);
      ClosedMenusKeepOtherDays(c, date, meals[..n], d);
      assert prev.nextId !in prev.menus;
    }
  }

  /** One closed record per meal type. */
  lemma ClosedRecordsOfEveryMeal(date: Date)
    ensures ClosedRecords(date, MealOrder) == {MenuRecord(date, Breakfast, None, Closed),
                                               MenuRecord(date, Lunch, None, Closed),
                                               MenuRecord(date, Dinner, None, Closed)}
  {
    assert MealOrder[..2] == [Breakfast, Lunch] && MealOrder[..2][..1] == [Breakfast];
    assert [Breakfast][..0] == [];
    assert ClosedRecords(date, [Breakfast]) == {MenuRecord(date, Breakfast, None, Closed)};
    assert ClosedRecords(date, [Breakfast, Lunch])
        == {MenuRecord(date, Breakfast, None, Closed), MenuRecord(date, Lunch, None, Closed)};
  }

  /**
   * With `refresh`, every menu the day has afterwards was drawn by this
   * scrape, and the menus of other days are untouched.
   */
  lemma RefreshReplacesDay(t: Tables, date: Date, periods: seq<Period>, fetch: Fetch)
    requires WellFormed(t)
    ensures var r := Scraped(t, date, true, Some(periods), fetch).value;
            && (forall id :: id in r.menus && r.menus[id].date == date ==> t.nextId <= id)
            && (forall id :: id in t.menus && t.menus[id].date != date ==> id in r.menus && r.menus[id] == t.menus[id])
  {
    var c := DateCleared(t, date);
    var r := Scraped(t, date, true, Some(periods), fetch).value;
    assert Grows(c, r);
  }

  /**
   * A non-empty periods list adds only open menus of that day, each at a
   * location.
   */
  lemma OpenDayAddsOnlyOpenMenus(t: Tables, date: Date, refresh: bool, periods: seq<Period>, fetch: Fetch)
    requires WellFormed(t) && periods != []
    ensures var cleared := if refresh then DateCleared(t, date) else t;
            var r := Scraped(t, date, refresh, Some(periods), fetch).value;
            forall id :: id in r.menus && id !in cleared.menus ==>
              r.menus[id].date == date && r.menus[id].status == Open && r.menus[id].location.Some?
  {
  }

  /** Every category of a meal ends up with a menu for its name. */
  lemma {:induction false} CategoriesHaveMenus(t: Tables, date: Date, meal: Meal, cs: seq<Category>, c: Category)
    requires WellFormed(t) && c in cs
    ensures HasKey(CategoriesAdded(t, date, meal, cs), (date, meal, Some(c.name)))
  {
    var n := |cs| - 1;
    assert cs[..n + 1] == cs;
    if c != cs[n] {
      var j :| 0 <= j < |cs| && cs[j] == c;
      assert cs[..n][j] == c;
      CategoriesHaveMenus(t, date, meal, cs[..n], c);
    }
    CategoriesAddedStep(t, date, meal, cs, n);
    var prev := CategoriesAdded(t, date, meal, cs[..n]);
    if c != cs[n] {
      GrowsKeepsKey(prev, CategoryAdded(prev, date, meal, cs[n]), (date, meal, Some(c.name)));
    }
  }

  /**
   * Every category the menu endpoint returns for a listed period ends up
   * with a menu at (date, the period's meal, the category's name).
   */
  lemma {:induction false} MealsHaveMenus(t: Tables, date: Date, meals: seq<(string, Meal)>, fetch: Fetch, i: nat, c: Category)
    requires WellFormed(t) && i < |meals| && c in fetch(date, meals[i].0)
    ensures HasKey(MealsAdded(t, date, meals, fetch), (date, meals[i].1, Some(c.name)))
  {
    var n := |meals| - 1;
    var prev := MealsAdded(t, date, meals[..n], fetch);
    var r := CategoriesAdded(prev, date, meals[n].1, fetch(date, meals[n].0));
    if i == n {
      CategoriesHaveMenus(prev, date, meals[n].1, fetch(date, meals[n].0), c);
    } else {
      assert meals[..n][i] == meals[i];
      MealsHaveMenus(t, date, meals[..n], fetch, i, c);
      GrowsKeepsKey(prev, r, (date, meals[i].1, Some(c.name)));
    }
  }

  /**
   * After a scrape with meal periods, each meal period's categories all
   * have a menu under the meal its id was last given.
   */
  lemma ScrapedDayHasEveryCategory(t: Tables, date: Date, refresh: bool, periods: seq<Period>, fetch: Fetch, j: nat, c: Category)
    requires WellFormed(t) && j < |periods| && periods[j].slug in MealTypes
    requires c in fetch(date, periods[j].id)
    ensures var meals := MealsById(periods);
            HasKey(Scraped(t, date, refresh, Some(periods), fetch).value, (date, meals.meal[periods[j].id], Some(c.name)))
  {
    var index := MealsById(periods);
    var k := periods[j].id;
    assert k in index.order;
    var i :| 0 <= i < |index.order| && index.order[i] == k;
    var cleared := if refresh then DateCleared(t, date) else t;
    MealsHaveMenus(cleared, date, Entries(index), fetch, i, c);
  }

  /** `names[i]` is the first occurrence of `n`. */
  ghost predicate FirstAt(names: seq<string>, n: string, i: int)
  {
    0 <= i < |names| && names[i] == n && forall j :: 0 <= j < i ==> names[j] != n
  }

  /** Adding two runs of items is adding their concatenation. */
  lemma {:induction false} ItemsAddedAppend(t: Tables, a: seq<ItemPayload>, b: seq<ItemPayload>)
    ensures ItemsAdded(t, a + b) == ItemsAdded(ItemsAdded(t, a), b)
    decreases |b|
  {
    if b == [] {
      assert a + b == a;
    } else {
      var k := |b| - 1;
      assert b == b[..k] + [b[k]];
      assert a + b == (a + b[..k]) + [b[k]];
      ItemsAddedAppend(t, a, b[..k]);
      ItemsAddedSnoc(t, a + b[..k], b[k]);
      ItemsAddedSnoc(ItemsAdded(t, a), b[..k], b[k]);
    }
  }

  /**
   * A name new to the store is stored with the row of the first item that
   * carries it; later items with the same name leave that row alone.
   */
  lemma FirstItemWins(t: Tables, items: seq<ItemPayload>, n: string, i: nat)
    requires n !in t.items && FirstAt(StrippedNames(items), n, i)
    ensures n in ItemsAdded(t, items).items
    ensures ItemsAdded(t, items).items[n] == ItemRecordOf(Stripped(items[i]))
  {
    var before, rest := items[..i], items[i + 1..];
    assert items == before + [items[i]] + rest;
    assert StrippedNames(items)[..i] == StrippedNames(before);
    assert n !in StrippedNames(before);
    var prev := ItemsAdded(t, before);
    assert n !in prev.items;
    ItemsAddedSnoc(t, before, items[i]);
    var mid := ItemsAdded(t, before + [items[i]]);
    assert mid.items[n] == ItemRecordOf(Stripped(items[i]));
    ItemsAddedAppend(t, before + [items[i]], rest);
  }

  /** Linking the same names to the same menu twice changes nothing more. */
  lemma LinksAddedIdempotent(t: Tables, id: Option<nat>, names: seq<string>)
    ensures LinksAdded(LinksAdded(t, id, names), id, names) == LinksAdded(t, id, names)
  {
  }

  /**
   * A category whose (date, meal, name) is new gets an open menu linked to
   * every one of its items' stripped names.
   */
  lemma CategoryLinksItsItems(t: Tables, date: Date, meal: Meal, c: Category)
    requires WellFormed(t) && !HasKey(t, (date, meal, Some(c.name)))
    ensures var r := CategoryAdded(t, date, meal, c);
            && t.nextId in r.menus && r.menus[t.nextId] == MenuRecord(date, meal, Some(c.name), Open)
            && forall n :: n in StrippedNames(c.items) ==> (t.nextId, n) in r.links
  {
    var withItems := ItemsAdded(t, c.items);
    assert withItems.menus == t.menus && withItems.nextId == t.nextId;
    var ins := MenuAdded(withItems, date, meal, Some(c.name), Open);
    assert ins.id == Some(t.nextId);
    assert CanLink(ins.tables, ins.id, StrippedNames(c.items));
  }

  /**
   * A second category with the same name in the same meal gets no menu of
   * its own, and its items, though stored, are linked to nothing.
   */
  lemma RepeatedCategoryUnlinked(t: Tables, date: Date, meal: Meal, c: Category)
    requires HasKey(t, (date, meal, Some(c.name)))
    ensures var r := CategoryAdded(t, date, meal, c);
            r.menus == t.menus && r.links == t.links
  {
    var withItems := ItemsAdded(t, c.items);
    assert withItems.menus == t.menus;
    var ins := MenuAdded(withItems, date, meal, Some(c.name), Open);
    assert ins.id.None?;
  }

  /** `main`'s deletion removes exactly the latest stored date. */
  lemma LatestClearedDates(t: Tables)
    requires Dates(t) != {}
    ensures Dates(LatestCleared(t)) == Dates(t) - {Latest(Dates(t))}
  {
    var latest := Latest(Dates(t));
    var c := LatestCleared(t);
    forall d | d in Dates(t) - {latest}
      ensures d in Dates(c)
    {
      var id :| id in t.menus && t.menus[id].date == d;
      assert id in c.menus;
    }
  }

  /** A run raises exactly when some day's payload has no periods. */
  lemma {:induction false} ScrapedAllRaises(t: Tables, dates: seq<Date>, periodsFor: Date -> Option<seq<Period>>, fetch: Fetch)
    ensures ScrapedAll(t, dates, periodsFor, fetch).raised <==> exists i :: 0 <= i < |dates| && periodsFor(dates[i]).None?
  {
    if dates != [] {
      var n := |dates| - 1;
      var pre := dates[..n];
      assert forall i :: 0 <= i < n ==> pre[i] == dates[i];
      assert (exists i :: 0 <= i < |dates| && periodsFor(dates[i]).None?)
         <==> (exists i :: 0 <= i < n && periodsFor(pre[i]).None?) || periodsFor(dates[n]).None?;
      ScrapedAllRaises(t, pre, periodsFor, fetch);
      ScrapedAllStep(t, dates, periodsFor, fetch, n);
      assert dates[..n + 1] == dates;
    }
  }

  /**
   * The caret is removed after stripping, so whitespace it guarded stays:
   * the stored ingredients can start with a space.
   */
  lemma CaretLeavesSpace()
    ensures CleanIngredients("^ egg") == " egg"
    ensures !IsTrimmed(CleanIngredients("^ egg"), Python)
  {
    assert !IsSpace('^', Python) && !IsSpace('g', Python);
    TrimOfTrimmed("^ egg", Python);
    assert "^ egg" == ['^'] + " egg";
    assert RemoveChar(" egg", '^') == " egg" by {
      RemoveCharAbsent(" egg", '^');
    }
  }
}
