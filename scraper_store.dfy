/**
 * The Python scraper's writes (`scraper/scraper.py`), stated over an
 * abstract store of three tables: `items` keyed by name, `menus` keyed by
 * a serial id and unique on (date, meal, location) with NULL locations
 * equal to each other, and `menu_items`, a set of (menu id, item name)
 * pairs. Every function here says what one call leaves in the store.
 */
module ScraperStore {
  import opened Wrappers
  import opened Schema
  import opened Text
  import opened Normalise

  /** A calendar day, counted from 1970-01-01. */
  type Date = int

  /** `START_DATE`, 2025-09-16. */
  const StartDate: Date := 20347
  /** `END_DATE`, 2025-09-17. */
  const EndDate: Date := 20348

  /** One item of a category of the upstream menu payload. */
  datatype ItemPayload = ItemPayload(
    name: string,
    desc: Option<string>,
    portion: Option<string>,
    ingredients: string,
    nutrients: seq<Nutrient>,
    filters: seq<Filter>)

  /** The columns of an `items` row other than its name. */
  datatype ItemRecord = ItemRecord(
    description: Option<string>,
    portion: Option<string>,
    ingredients: string,
    nutrients: map<string, string>,
    filters: seq<string>,
    image: Option<string>,
    imageSource: Option<string>)

  /** `x.strip() if x is not None else None`. */
  function StripOrNone(x: Option<string>): (r: Option<string>)
    ensures r.None? <==> x.None?
    ensures r.Some? ==> r.value == Strip(x.value) && IsTrimmed(r.value, Python)
  {
    if x.None? then None
    else
      TrimCutsSpace(x.value, Python);
      Some(Strip(x.value))
  }

  /** `ingredients.strip().replace("^", "")`. */
  function CleanIngredients(s: string): string
  {
    RemoveChar(Strip(s), '^')
  }

  /** No caret is left, and every other character of the stripped text is. */
  lemma CleanIngredientsDropsCarets(s: string)
    ensures '^' !in CleanIngredients(s)
    ensures forall c :: c != '^' ==> multiset(CleanIngredients(s))[c] == multiset(Strip(s))[c]
  {
    RemoveCharCounts(Strip(s), '^');
  }

  /**
   * The row `add_item` inserts: six values for the first six columns, so
   * `image` and `image_source` are NULL.
   */
  function ItemRecordOf(item: ItemPayload): ItemRecord
  {
    ItemRecord(StripOrNone(item.desc), StripOrNone(item.portion), CleanIngredients(item.ingredients),
               PyNutrients(item.nutrients), PyLabels(item.filters), None, None)
  }

  /** One `menus` row other than its id. */
  datatype MenuRecord = MenuRecord(date: Date, meal: Meal, location: Option<string>, status: Status)

  /** The columns of the uniqueness constraint; `None` is NULL. */
  type MenuKey = (Date, Meal, Option<string>)

  function KeyOf(m: MenuRecord): MenuKey
  {
    (m.date, m.meal, m.location)
  }

  /** The three tables, and the next value of the `menus.id` serial. */
  datatype Tables = Tables(
    items: map<string, ItemRecord>,
    menus: map<nat, MenuRecord>,
    nextId: nat,
    links: set<(nat, string)>)

  /** A fresh database: empty tables, the serial at 1. */
  const EmptyTables: Tables := Tables(map[], map[], 1, {})

  /**
   * The table constraints: ids were drawn from the serial, no two menus
   * share a (date, meal, location), and every link names a stored menu and
   * a stored item.
   */
  ghost predicate WellFormed(t: Tables)
  {
    && (forall id :: id in t.menus ==> id < t.nextId)
    && (forall a, b :: a in t.menus && b in t.menus && KeyOf(t.menus[a]) == KeyOf(t.menus[b]) ==> a == b)
    && (forall l :: l in t.links ==> l.0 in t.menus && l.1 in t.items)
  }

  /** Some stored menu has this (date, meal, location). */
  predicate HasKey(t: Tables, k: MenuKey)
  {
    exists id :: id in t.menus && KeyOf(t.menus[id]) == k
  }

  /**
   * What the later store `r` keeps of `t`: every menu, item and link of `t`
   * is still there unchanged, the serial only moved forward, and every new
   * menu id was drawn after `t`.
   */
  ghost predicate Grows(t: Tables, r: Tables)
  {
    && t.nextId <= r.nextId
    && (forall id :: id in t.menus ==> id in r.menus && r.menus[id] == t.menus[id])
    && (forall id :: id in r.menus && id !in t.menus ==> t.nextId <= id)
    && (forall n :: n in t.items ==> n in r.items && r.items[n] == t.items[n])
    && t.links <= r.links
  }

  lemma GrowsTrans(a: Tables, b: Tables, c: Tables)
    ensures Grows(a, b) && Grows(b, c) ==> Grows(a, c)
  {
  }

  lemma GrowsKeepsKey(t: Tables, r: Tables, k: MenuKey)
    requires Grows(t, r) && HasKey(t, k)
    ensures HasKey(r, k)
  {
    var id :| id in t.menus && KeyOf(t.menus[id]) == k;
    assert id in r.menus && KeyOf(r.menus[id]) == k;
  }

  /**
   * `add_item`: the insert succeeds when the name is new; a name already
   * stored raises the IntegrityError that is rolled back, so the stored row
   * is kept as it was.
   */
  function ItemAdded(t: Tables, item: ItemPayload): (r: Tables)
    ensures r.items.Keys == t.items.Keys + {item.name}
    ensures item.name in t.items ==> r == t
    ensures item.name !in t.items ==> r.items[item.name] == ItemRecordOf(item)
    ensures Grows(t, r) && r.menus == t.menus && r.nextId == t.nextId && r.links == t.links
    ensures WellFormed(t) ==> WellFormed(r)
  {
    if item.name in t.items then t else t.(items := t.items[item.name := ItemRecordOf(item)])
  }

  /** The result of `add_menu`: the store after it, and the id it returns. */
  datatype Insertion = Insertion(tables: Tables, id: Option<nat>)

  /**
   * `add_menu`: the serial is advanced whether or not the insert succeeds;
   * the insert succeeds exactly when no stored menu has the same (date,
   * meal, location), and then returns the drawn id; otherwise it is rolled
   * back and returns `None`. Either way the key is stored afterwards.
   */
  function MenuAdded(t: Tables, date: Date, meal: Meal, location: Option<string>, status: Status): (r: Insertion)
    ensures r.tables.nextId == t.nextId + 1
    ensures r.id.Some? <==> !HasKey(t, (date, meal, location))
    ensures r.id.Some? ==> r.id.value == t.nextId
                           && r.tables.menus == t.menus[t.nextId := MenuRecord(date, meal, location, status)]
    ensures r.id.None? ==> r.tables.menus == t.menus
    ensures r.tables.items == t.items && r.tables.links == t.links
    ensures HasKey(r.tables, (date, meal, location))
    ensures WellFormed(t) ==> WellFormed(r.tables)
    ensures WellFormed(t) ==> Grows(t, r.tables)
  {
    var drawn := t.(nextId := t.nextId + 1);
    if HasKey(t, (date, meal, location)) then Insertion(drawn, None)
    else
      var r := Insertion(drawn.(menus := t.menus[t.nextId := MenuRecord(date, meal, location, status)]), Some(t.nextId));
      assert KeyOf(r.tables.menus[t.nextId]) == (date, meal, location);
      r
  }

  /** The links `add_menu_items` writes for menu `id`. */
  function LinksOf(id: nat, names: seq<string>): (r: set<(nat, string)>)
    ensures forall l :: l in r <==> l.0 == id && l.1 in names
  {
    set n | n in names :: (id, n)
  }

  /**
   * `add_menu_items`: one batch that is written whole or not at all. It
   * fails when the id is `None` (a NULL key), names no stored menu, or one
   * of the names is not a stored item; a pair already stored is skipped.
   */
  predicate CanLink(t: Tables, id: Option<nat>, names: seq<string>)
  {
    id.Some? && id.value in t.menus && forall n :: n in names ==> n in t.items
  }

  function LinksAdded(t: Tables, id: Option<nat>, names: seq<string>): (r: Tables)
    ensures CanLink(t, id, names) ==> r.links == t.links + LinksOf(id.value, names)
    ensures !CanLink(t, id, names) ==> r == t
    ensures r.items == t.items && r.menus == t.menus && r.nextId == t.nextId
    ensures Grows(t, r)
    ensures WellFormed(t) ==> WellFormed(r)
  {
    if CanLink(t, id, names) then t.(links := t.links + LinksOf(id.value, names)) else t
  }

  /** The menu `id` is stored and dated `date`. */
  predicate DatedMenu(t: Tables, id: nat, date: Date)
  {
    id in t.menus && t.menus[id].date == date
  }

  /**
   * The refresh deletion: first the links of the date's menus, then the
   * date's menus; everything else stays.
   */
  function DateCleared(t: Tables, date: Date): (r: Tables)
    ensures forall id :: id in r.menus <==> id in t.menus && t.menus[id].date != date
    ensures forall id :: id in r.menus ==> r.menus[id] == t.menus[id]
    ensures forall l :: l in r.links <==> l in t.links && !DatedMenu(t, l.0, date)
    ensures r.items == t.items && r.nextId == t.nextId
    ensures WellFormed(t) ==> WellFormed(r)
  {
    Tables(t.items,
           map id | id in t.menus && t.menus[id].date != date :: t.menus[id],
           t.nextId,
           set l | l in t.links && !DatedMenu(t, l.0, date))
  }

  /** A category of a meal's menu payload: a location and its items. */
  datatype Category = Category(name: string, items: seq<ItemPayload>)

  /** The item after `item_data["name"] = item_data["name"].strip()`. */
  function Stripped(item: ItemPayload): ItemPayload
  {
    item.(name := Strip(item.name))
  }

  /** The `items` list of a category: its items' stripped names, in order. */
  function StrippedNames(items: seq<ItemPayload>): (r: seq<string>)
    ensures |r| == |items|
    ensures forall i :: 0 <= i < |items| ==> r[i] == Strip(items[i].name)
  {
    seq(|items|, i requires 0 <= i < |items| => Strip(items[i].name))
  }

  lemma StrippedNamesSnoc(items: seq<ItemPayload>, x: ItemPayload)
    ensures StrippedNames(items + [x]) == StrippedNames(items) + [Stripped(x).name]
  {
  }

  /**
   * `add_item` on each item of a category in order: every stripped name is
   * stored afterwards, and rows stored before are kept as they were.
   */
  function ItemsAdded(t: Tables, items: seq<ItemPayload>): (r: Tables)
    ensures forall n :: n in StrippedNames(items) ==> n in r.items
    ensures forall n :: n in r.items ==> n in t.items || n in StrippedNames(items)
    ensures Grows(t, r) && r.menus == t.menus && r.nextId == t.nextId && r.links == t.links
    ensures WellFormed(t) ==> WellFormed(r)
  {
    if items == [] then t
    else
      var n := |items| - 1;
      var prev := ItemsAdded(t, items[..n]);
      StrippedNamesSnoc(items[..n], items[n]);
      assert items[..n] + [items[n]] == items;
      ItemAdded(prev, Stripped(items[n]))
  }

  /**
   * One category of a meal: its items, then an open menu at the category's
   * name (not stripped), then the links from that menu to the items.
   */
  function CategoryAdded(t: Tables, date: Date, meal: Meal, c: Category): (r: Tables)
    ensures WellFormed(t) ==> WellFormed(r) && Grows(t, r)
    ensures HasKey(r, (date, meal, Some(c.name)))
    ensures WellFormed(t) ==> forall id :: id in r.menus && id !in t.menus ==> r.menus[id] == MenuRecord(date, meal, Some(c.name), Open)
  {
    var withItems := ItemsAdded(t, c.items);
    var ins := MenuAdded(withItems, date, meal, Some(c.name), Open);
    LinksAdded(ins.tables, ins.id, StrippedNames(c.items))
  }

  /** The categories of one meal, in order. */
  function CategoriesAdded(t: Tables, date: Date, meal: Meal, cs: seq<Category>): (r: Tables)
    ensures WellFormed(t) ==> WellFormed(r) && Grows(t, r)
    ensures WellFormed(t) ==> forall id :: id in r.menus && id !in t.menus ==>
              r.menus[id].date == date && r.menus[id].meal == meal && r.menus[id].status == Open
              && r.menus[id].location.Some?
  {
    if cs == [] then t
    else
      var n := |cs| - 1;
      var prev := CategoriesAdded(t, date, meal, cs[..n]);
      var r := CategoryAdded(prev, date, meal, cs[n]);
      GrowsTrans(t, prev, r);
      forall id | WellFormed(t) && id in r.menus && id !in t.menus
        ensures r.menus[id].date == date && r.menus[id].meal == meal && r.menus[id].status == Open
                && r.menus[id].location.Some?
      {
        if id in prev.menus {
          assert r.menus[id] == prev.menus[id];
        }
      }
      r
  }

  /** The categories the menu endpoint returns for a period on a date. */
  type Fetch = (Date, string) -> seq<Category>

  /** The meals of a day, in the order of the `meals` dictionary. */
  function MealsAdded(t: Tables, date: Date, meals: seq<(string, Meal)>, fetch: Fetch): (r: Tables)
    ensures WellFormed(t) ==> WellFormed(r) && Grows(t, r)
    ensures WellFormed(t) ==> forall id :: id in r.menus && id !in t.menus ==>
              r.menus[id].date == date && r.menus[id].status == Open && r.menus[id].location.Some?
  {
    if meals == [] then t
    else
      var n := |meals| - 1;
      var prev := MealsAdded(t, date, meals[..n], fetch);
      var r := CategoriesAdded(prev, date, meals[n].1, fetch(date, meals[n].0));
      GrowsTrans(t, prev, r);
      forall id | WellFormed(t) && id in r.menus && id !in t.menus
        ensures r.menus[id].date == date && r.menus[id].status == Open && r.menus[id].location.Some?
      {
        if id in prev.menus {
          assert r.menus[id] == prev.menus[id];
        }
      }
      r
  }

  /** The meal types in the order the closed-day loop visits them. */
  const MealOrder: seq<Meal> := [Breakfast, Lunch, Dinner]

  /** Closed menus with a NULL location for each meal of `meals`, in order. */
  function ClosedMenusAdded(t: Tables, date: Date, meals: seq<Meal>): (r: Tables)
    ensures WellFormed(t) ==> WellFormed(r) && Grows(t, r)
    ensures r.items == t.items && r.links == t.links
    ensures WellFormed(t) ==> forall i :: 0 <= i < |meals| ==> HasKey(r, (date, meals[i], None))
  {
    if meals == [] then t
    else
      var n := |meals| - 1;
      var prev := ClosedMenusAdded(t, date, meals[..n]);
      var r := MenuAdded(prev, date, meals[n], None, Closed).tables;
      forall i | 0 <= i < |meals| && WellFormed(t)
        ensures HasKey(r, (date, meals[i], None))
      {
        if i < n {
          assert meals[..n][i] == meals[i];
          GrowsKeepsKey(prev, r, (date, meals[i], None));
        }
      }
      GrowsTrans(t, prev, r);
      r
  }

  /** A closed day: one closed menu with a NULL location per meal type. */
  function ClosedDay(t: Tables, date: Date): (r: Tables)
    ensures WellFormed(t) ==> WellFormed(r) && Grows(t, r)
  {
    ClosedMenusAdded(t, date, MealOrder)
  }

  /** One entry of the `periods` list. */
  datatype Period = Period(id: string, slug: string)

  /**
   * The `meals` dictionary: period ids in insertion order, and the meal
   * each id maps to.
   */
  datatype MealsIndex = MealsIndex(order: seq<string>, meal: map<string, Meal>)

  /** No id is listed twice. */
  ghost predicate Distinct(xs: seq<string>)
  {
    forall i, j :: 0 <= i < j < |xs| ==> xs[i] != xs[j]
  }

  /** The listed ids are exactly the mapped ones, each listed once. */
  ghost predicate IndexValid(d: MealsIndex)
  {
    Distinct(d.order) && forall k :: k in d.order <==> k in d.meal
  }

  /**
   * `meals[id] = m`: an id already present keeps its position and takes the
   * new meal; a new id goes last.
   */
  function Stored(d: MealsIndex, id: string, m: Meal): (r: MealsIndex)
    requires IndexValid(d)
    ensures IndexValid(r)
    ensures r.meal == d.meal[id := m]
    ensures id in d.meal ==> r.order == d.order
    ensures id !in d.meal ==> r.order == d.order + [id]
  {
    if id in d.meal then d.(meal := d.meal[id := m])
    else MealsIndex(d.order + [id], d.meal[id := m])
  }

  /** `ps[j]` is the last meal period with id `k`. */
  ghost predicate LastMealPeriod(ps: seq<Period>, k: string, j: int)
  {
    && 0 <= j < |ps| && ps[j].id == k && ps[j].slug in MealTypes
    && forall i :: j < i < |ps| && ps[i].id == k ==> ps[i].slug !in MealTypes
  }

  /**
   * `{period["id"]: period["slug"] for period in periods if period["slug"]
   * in MEAL_TYPES}`: every meal period's id is present, listed once, at the
   * place of its first meal period.
   */
  function MealsById(periods: seq<Period>): (r: MealsIndex)
    ensures IndexValid(r)
    ensures forall j :: 0 <= j < |periods| && periods[j].slug in MealTypes ==> periods[j].id in r.meal
  {
    if periods == [] then MealsIndex([], map[])
    else
      var n := |periods| - 1;
      var prev := MealsById(periods[..n]);
      assert forall j :: 0 <= j < n ==> periods[..n][j] == periods[j];
      match MealOfSlug(periods[n].slug)
      case None => prev
      case Some(m) => Stored(prev, periods[n].id, m)
  }

  /** Each id maps to the meal of its last meal period: later periods overwrite. */
  lemma {:induction false} MealsByIdLastWins(periods: seq<Period>, k: string)
    requires k in MealsById(periods).meal
    ensures exists j :: LastMealPeriod(periods, k, j) && MealName(MealsById(periods).meal[k]) == periods[j].slug
  {
    var n := |periods| - 1;
    var p := periods[n];
    if p.id == k && p.slug in MealTypes {
      assert LastMealPeriod(periods, k, n);
    } else {
      assert periods[..n] + [p] == periods;
      MealsByIdLastWins(periods[..n], k);
      var j :| LastMealPeriod(periods[..n], k, j) && MealName(MealsById(periods[..n]).meal[k]) == periods[..n][j].slug;
      assert periods[..n][j] == periods[j];
      forall i | j < i < |periods| && periods[i].id == k
        ensures periods[i].slug !in MealTypes
      {
        if i < n {
          assert periods[..n][i] == periods[i];
        }
      }
      assert LastMealPeriod(periods, k, j);
    }
  }

  /** `ps[j]` is the first meal period with id `k`. */
  ghost predicate FirstMealPeriod(ps: seq<Period>, k: string, j: int)
  {
    && 0 <= j < |ps| && ps[j].id == k && ps[j].slug in MealTypes
    && forall i :: 0 <= i < j && ps[i].id == k ==> ps[i].slug !in MealTypes
  }

  /** Some meal period has id `k`. */
  ghost predicate HasFirstMealPeriod(ps: seq<Period>, k: string)
  {
    exists j :: FirstMealPeriod(ps, k, j)
  }

  /**
   * Every listed id has a first meal period, and the ids are listed in the
   * order of their first meal periods.
   */
  ghost predicate OrderedByFirst(ps: seq<Period>, order: seq<string>)
  {
    && (forall a :: 0 <= a < |order| ==> HasFirstMealPeriod(ps, order[a]))
    && (forall a, b, ja, jb :: 0 <= a < b < |order| && FirstMealPeriod(ps, order[a], ja) && FirstMealPeriod(ps, order[b], jb) ==> ja < jb)
  }

  lemma FirstMealPeriodPrefix(ps: seq<Period>, n: nat, k: string, j: int)
    requires n <= |ps| && j < n
    ensures FirstMealPeriod(ps[..n], k, j) <==> FirstMealPeriod(ps, k, j)
  {
    assert forall i :: 0 <= i < n ==> ps[..n][i] == ps[i];
  }

  /** An id has at most one first meal period. */
  lemma FirstMealPeriodUnique(ps: seq<Period>, k: string, j1: int, j2: int)
    requires FirstMealPeriod(ps, k, j1) && FirstMealPeriod(ps, k, j2)
    ensures j1 == j2
  {
  }

  /** An order that fits a prefix of the periods fits them all, with every first period inside the prefix. */
  lemma OrderedByFirstLift(ps: seq<Period>, n: nat, order: seq<string>)
    requires n <= |ps| && OrderedByFirst(ps[..n], order)
    ensures OrderedByFirst(ps, order)
    ensures forall a, j :: 0 <= a < |order| && FirstMealPeriod(ps, order[a], j) ==> j < n
  {
    forall a, j | 0 <= a < |order| && FirstMealPeriod(ps, order[a], j)
      ensures j < n && FirstMealPeriod(ps[..n], order[a], j)
    {
      var j0 :| FirstMealPeriod(ps[..n], order[a], j0);
      FirstMealPeriodPrefix(ps, n, order[a], j0);
      FirstMealPeriodUnique(ps, order[a], j, j0);
    }
    forall a | 0 <= a < |order|
      ensures HasFirstMealPeriod(ps, order[a])
    {
      var j0 :| FirstMealPeriod(ps[..n], order[a], j0);
      FirstMealPeriodPrefix(ps, n, order[a], j0);
      assert FirstMealPeriod(ps, order[a], j0);
    }
  }

  /** An id whose first meal period comes after those of all listed ids may be listed last. */
  lemma OrderedByFirstSnoc(ps: seq<Period>, order: seq<string>, k: string, jk: int)
    requires OrderedByFirst(ps, order) && FirstMealPeriod(ps, k, jk)
    requires forall a, j :: 0 <= a < |order| && FirstMealPeriod(ps, order[a], j) ==> j < jk
    ensures OrderedByFirst(ps, order + [k])
  {
    var o := order + [k];
    forall a, b, ja, jb | 0 <= a < b < |o| && FirstMealPeriod(ps, o[a], ja) && FirstMealPeriod(ps, o[b], jb)
      ensures ja < jb
    {
      assert o[a] == order[a];
      if b == |order| {
        FirstMealPeriodUnique(ps, k, jb, jk);
      } else {
        assert o[b] == order[b];
      }
    }
    forall a | 0 <= a < |o|
      ensures HasFirstMealPeriod(ps, o[a])
    {
      if a < |order| {
        var j :| FirstMealPeriod(ps, order[a], j);
        assert FirstMealPeriod(ps, o[a], j);
      } else {
        assert FirstMealPeriod(ps, o[a], jk);
      }
    }
  }

  /**
   * Python dictionaries keep insertion order, so the ids of `meals` come in
   * the order in which their first meal periods occur in the payload.
   */
  lemma {:induction false} MealsByIdFirstOrder(periods: seq<Period>)
    ensures OrderedByFirst(periods, MealsById(periods).order)
  {
    if periods != [] {
      var n := |periods| - 1;
      var pre, p := periods[..n], periods[n];
      var prev := MealsById(pre);
      MealsByIdFirstOrder(pre);
      OrderedByFirstLift(periods, n, prev.order);
      if p.slug in MealTypes && p.id !in prev.meal {
        forall i | 0 <= i < n && periods[i].id == p.id
          ensures periods[i].slug !in MealTypes
        {
          assert pre[i] == periods[i];
        }
        OrderedByFirstSnoc(periods, prev.order, p.id, n);
      }
    }
  }

  /** The dictionary's entries in order, as (period id, meal) pairs. */
  function Entries(d: MealsIndex): (r: seq<(string, Meal)>)
    requires IndexValid(d)
    ensures |r| == |d.order|
    ensures forall i :: 0 <= i < |r| ==> r[i] == (d.order[i], d.meal[d.order[i]])
  {
    seq(|d.order|, i requires 0 <= i < |d.order| => (d.order[i], d.meal[d.order[i]]))
  }

  /** Why `scrape_menus` raises. */
  datatype ScrapeError = MissingPeriods   // no "periods" key in the payload

  /**
   * `scrape_menus(date, refresh)`, given the parsed periods payload (`None`
   * when it has no "periods" key) and the menu endpoint's answers. Without
   * periods it raises before anything is written; with `refresh` the date
   * is cleared first; an empty list closes the day; otherwise the meal
   * periods are scraped in order.
   */
  function Scraped(t: Tables, date: Date, refresh: bool, periods: Option<seq<Period>>, fetch: Fetch): (r: Result<Tables, ScrapeError>)
    ensures r.Err? <==> periods.None?
    ensures WellFormed(t) && r.Ok? ==> WellFormed(r.value)
  {
    if periods.None? then Err(MissingPeriods)
    else
      var cleared := if refresh then DateCleared(t, date) else t;
      if periods.value == [] then Ok(ClosedDay(cleared, date))
      else Ok(MealsAdded(cleared, date, Entries(MealsById(periods.value)), fetch))
  }

  /** The dates of the stored menus (`SELECT DISTINCT date FROM menus`). */
  function Dates(t: Tables): set<Date>
  {
    set id | id in t.menus :: t.menus[id].date
  }

  /** A finite non-empty set of days has a latest one. */
  lemma {:induction false} HasLatest(s: set<int>)
    requires s != {}
    ensures exists m :: m in s && forall d :: d in s ==> d <= m
    decreases |s|
  {
    if forall y :: y !in s {
      assert false;
    }
    var x :| x in s;
    var rest := s - {x};
    assert forall d :: d in s ==> d == x || d in rest;
    if rest != {} {
      HasLatest(rest);
      var m :| m in rest && forall d :: d in rest ==> d <= m;
      if x <= m {
        assert forall d :: d in s ==> d <= m;
      } else {
        assert forall d :: d in s ==> d <= x;
      }
    }
  }

  /** `SELECT MAX(date) FROM menus` on a non-empty table. */
  ghost function Latest(s: set<Date>): (m: Date)
    requires s != {}
    ensures m in s && forall d :: d in s ==> d <= m
  {
    HasLatest(s);
    var m :| m in s && forall d :: d in s ==> d <= m;
    m
  }

  /**
   * `main`'s first statement: the menus of the latest stored date are
   * deleted, their links with them (ON DELETE CASCADE); with no menus the
   * maximum is NULL and nothing is deleted.
   */
  ghost function LatestCleared(t: Tables): Tables
  {
    if Dates(t) == {} then t else DateCleared(t, Latest(Dates(t)))
  }

  /**
   * `sorted(all_dates - scraped_dates)` where `all_dates` are the days from
   * `start` up to but not including `end`: exactly the unscraped days of
   * that range, in strictly increasing order.
   */
  function MissingDates(start: Date, end: Date, scraped: set<Date>): (r: seq<Date>)
    ensures forall i, j :: 0 <= i < j < |r| ==> r[i] < r[j]
    ensures forall d :: d in r <==> start <= d < end && d !in scraped
    decreases end - start
  {
    if end <= start then []
    else
      var prev := MissingDates(start, end - 1, scraped);
      assert forall i :: 0 <= i < |prev| ==> prev[i] in prev;
      prev + (if end - 1 in scraped then [] else [end - 1])
  }

  /** The outcome of scraping several days: the store, and whether one raised. */
  datatype Run = Run(tables: Tables, raised: bool)

  /**
   * `scrape_menus(d)` for each day in order; the first one that raises ends
   * the run, leaving what the earlier days wrote.
   */
  function ScrapedAll(t: Tables, dates: seq<Date>, periodsFor: Date -> Option<seq<Period>>, fetch: Fetch): (r: Run)
    ensures WellFormed(t) ==> WellFormed(r.tables)
  {
    if dates == [] then Run(t, false)
    else
      var n := |dates| - 1;
      var prev := ScrapedAll(t, dates[..n], periodsFor, fetch);
      if prev.raised then prev
      else
        match Scraped(prev.tables, dates[n], false, periodsFor(dates[n]), fetch)
        case Ok(next) => Run(next, false)
        case Err(_) => Run(prev.tables, true)
  }

  /** The run's step at day `i`: it raises there exactly when that day has no periods. */
  lemma ScrapedAllStep(t: Tables, dates: seq<Date>, periodsFor: Date -> Option<seq<Period>>, fetch: Fetch, i: nat)
    requires i < |dates|
    ensures var prev := ScrapedAll(t, dates[..i], periodsFor, fetch);
            ScrapedAll(t, dates[..i + 1], periodsFor, fetch)
            == if prev.raised then prev
               else match Scraped(prev.tables, dates[i], false, periodsFor(dates[i]), fetch)
                    case Ok(next) => Run(next, false)
                    case Err(_) => Run(prev.tables, true)
    ensures ScrapedAll(t, dates[..i + 1], periodsFor, fetch).raised
            <==> ScrapedAll(t, dates[..i], periodsFor, fetch).raised || periodsFor(dates[i]).None?
  {
    assert dates[..i + 1][..i] == dates[..i];
  }

  /** Once a day has raised, the later days are not scraped. */
  lemma {:induction false} ScrapedAllStops(t: Tables, dates: seq<Date>, periodsFor: Date -> Option<seq<Period>>, fetch: Fetch, k: nat)
    requires k <= |dates| && ScrapedAll(t, dates[..k], periodsFor, fetch).raised
    ensures ScrapedAll(t, dates, periodsFor, fetch) == ScrapedAll(t, dates[..k], periodsFor, fetch)
    decreases |dates| - k
  {
    if k < |dates| {
      ScrapedAllStep(t, dates, periodsFor, fetch, k);
      ScrapedAllStops(t, dates, periodsFor, fetch, k + 1);
    } else {
      assert dates[..k] == dates;
    }
  }

  lemma ItemsAddedSnoc(t: Tables, items: seq<ItemPayload>, x: ItemPayload)
    ensures ItemsAdded(t, items + [x]) == ItemAdded(ItemsAdded(t, items), Stripped(x))
  {
    assert (items + [x])[..|items|] == items;
  }

  /** The item loop's step at index `i`. */
  lemma ItemsAddedStep(t: Tables, items: seq<ItemPayload>, i: nat)
    requires i < |items|
    ensures ItemsAdded(t, items[..i + 1]) == ItemAdded(ItemsAdded(t, items[..i]), Stripped(items[i]))
    ensures StrippedNames(items[..i + 1]) == StrippedNames(items[..i]) + [Stripped(items[i]).name]
  {
    assert items[..i + 1] == items[..i] + [items[i]];
    ItemsAddedSnoc(t, items[..i], items[i]);
    StrippedNamesSnoc(items[..i], items[i]);
  }

  lemma CategoriesAddedSnoc(t: Tables, date: Date, meal: Meal, cs: seq<Category>, c: Category)
    ensures CategoriesAdded(t, date, meal, cs + [c]) == CategoryAdded(CategoriesAdded(t, date, meal, cs), date, meal, c)
  {
    assert (cs + [c])[..|cs|] == cs;
  }

  lemma CategoriesAddedStep(t: Tables, date: Date, meal: Meal, cs: seq<Category>, i: nat)
    requires i < |cs|
    ensures CategoriesAdded(t, date, meal, cs[..i + 1]) == CategoryAdded(CategoriesAdded(t, date, meal, cs[..i]), date, meal, cs[i])
  {
    assert cs[..i + 1][..i] == cs[..i];
  }

  lemma MealsAddedSnoc(t: Tables, date: Date, meals: seq<(string, Meal)>, e: (string, Meal), fetch: Fetch)
    ensures MealsAdded(t, date, meals + [e], fetch) == CategoriesAdded(MealsAdded(t, date, meals, fetch), date, e.1, fetch(date, e.0))
  {
    assert (meals + [e])[..|meals|] == meals;
  }
}
